/** Splitting a schema text into its SQL statements: SchemaSqlStatementsReader and
    CreateSchemaCmd::executeNonQueries. */
module SqlStatements {
  import opened Tables

  // ----- trimming -----

  predicate IsSpace(c: char) {
    c == '\t' || c == '\n' || c == '\U{0B}' || c == '\U{0C}' || c == '\r' || c == ' '
  }

  /** Tabulator, line feed, vertical tabulator, form feed, carriage return and blank. */
  lemma SpacesAre(c: char)
    ensures IsSpace(c) <==> 9 <= c as int <= 13 || c as int == 32
  {
  }

  predicate Blank(s: string) {
    forall i | 0 <= i < |s| :: IsSpace(s[i])
  }

  predicate Trimmed(s: string) {
    s != [] ==> !IsSpace(s[0]) && !IsSpace(s[|s| - 1])
  }

  function Trim(s: string): (t: string)
    ensures Trimmed(t)
  {
    if s == [] then []
    else if IsSpace(s[0]) then Trim(s[1..])
    else if IsSpace(s[|s| - 1]) then Trim(s[..|s| - 1])
    else s
  }

  lemma {:induction false} TrimFront(a: string, s: string)
    requires Blank(a)
    ensures Trim(a + s) == Trim(s)
  {
    if a == [] {
      assert a + s == s;
    } else {
      TrimFront(a[1..], s);
      assert (a + s)[0] == a[0] && (a + s)[1..] == a[1..] + s;
    }
  }

  lemma {:induction false} TrimBack(t: string, b: string)
    requires t != [] && Trimmed(t) && Blank(b)
    ensures Trim(t + b) == t
  {
    var s := t + b;
    if b == [] {
      assert s == t;
    } else {
      var n := |b| - 1;
      TrimBack(t, b[..n]);
      assert s[0] == t[0] && s[|s| - 1] == b[n] && s[..|s| - 1] == t + b[..n];
    }
  }

  /** Trimming strips the blanks at both ends, and that determines it. */
  lemma TrimIs(a: string, t: string, b: string)
    requires Blank(a) && Blank(b) && Trimmed(t)
    ensures Trim(a + t + b) == t
  {
    assert a + t + b == a + (t + b);
    TrimFront(a, t + b);
    if t == [] {
      assert t + b == b + [];
      TrimFront(b, []);
    } else {
      TrimBack(t, b);
    }
  }

  method TrimString(s: string) returns (t: string)
    ensures t == Trim(s)
  {
    var begin := 0;
    while begin < |s| && IsSpace(s[begin])
      invariant begin <= |s| && Blank(s[..begin])
    {
      begin := begin + 1;
    }
    var end := |s|;
    while end > 0 && IsSpace(s[end - 1])
      invariant 0 <= end <= |s| && Blank(s[end..])
      invariant begin < |s| ==> begin < end
    {
      end := end - 1;
    }
    // Without a character to keep, both iterators stay at the beginning.
    if begin == |s| {
      begin := 0;
    }
    t := s[begin..end];
    TrimIs(s[..begin], t, s[end..]);
    assert s == s[..begin] + t + s[end..];
  }

  // ----- splitting -----

  predicate NoSemicolon(s: string) {
    forall i | 0 <= i < |s| :: s[i] != ';'
  }

  /** `found` is the first semicolon at or after `from`. */
  predicate IsFirst(text: string, from: nat, found: Option<nat>)
    requires from <= |text|
  {
    match found
    case None => NoSemicolon(text[from..])
    case Some(k) => from <= k < |text| && text[k] == ';' && NoSemicolon(text[from..k])
  }

  method Find(text: string, from: nat) returns (found: Option<nat>)
    requires from <= |text|
    ensures IsFirst(text, from, found)
  {
    var i := from;
    while i < |text|
      invariant from <= i <= |text| && NoSemicolon(text[from..i])
    {
      if text[i] == ';' { return Some(i); }
      assert text[from..i + 1] == text[from..i] + [text[i]];
      i := i + 1;
    }
    assert text[from..i] == text[from..];
    return None;
  }

  function FirstSemicolon(text: string): (k: nat)
    requires !NoSemicolon(text)
    ensures k < |text| && text[k] == ';' && NoSemicolon(text[..k])
  {
    if text[0] == ';' then 0
    else
      var k := FirstSemicolon(text[1..]);
      assert text[..k + 1] == [text[0]] + text[1..][..k];
      k + 1
  }

  function Nonempty(s: string): seq<string> {
    if s == [] then [] else [s]
  }

  /** The statements of a text, without their semicolons. */
  function Statements(text: string): seq<string> {
    if NoSemicolon(text) then []
    else
      var k := FirstSemicolon(text);
      Nonempty(Trim(text[..k])) + Statements(text[k + 1..])
  }

  lemma {:induction false} FirstSemicolonIs(s: string, rest: string)
    requires NoSemicolon(s)
    ensures !NoSemicolon(s + ";" + rest) && FirstSemicolon(s + ";" + rest) == |s|
  {
    var text := s + ";" + rest;
    assert text[|s|] == ';';
    if s != [] {
      FirstSemicolonIs(s[1..], rest);
      assert text[0] == s[0] && text[1..] == s[1..] + ";" + rest;
    }
  }

  lemma StatementsCons(s: string, rest: string)
    requires NoSemicolon(s)
    ensures Statements(s + ";" + rest) == Nonempty(Trim(s)) + Statements(rest)
  {
    var text := s + ";" + rest;
    FirstSemicolonIs(s, rest);
    assert text[..|s|] == s && text[|s| + 1..] == rest;
  }

  lemma SliceSplit(text: string, from: nat, k: nat)
    requires from <= k < |text| && text[k] == ';'
    ensures text[from..] == text[from..k] + ";" + text[k + 1..]
  {
  }

  /** The statements from the cursor on: the one that ends at `k`, and those after it. */
  lemma StatementsFrom(text: string, from: nat, k: nat)
    requires from <= k < |text| && text[k] == ';' && NoSemicolon(text[from..k])
    ensures Statements(text[from..]) == Nonempty(Trim(text[from..k])) + Statements(text[k + 1..])
  {
    SliceSplit(text, from, k);
    StatementsCons(text[from..k], text[k + 1..]);
  }

  /** `done` are the statements before the cursor. */
  ghost predicate Reached(text: string, from: nat, done: seq<string>) {
    from <= |text| && Statements(text) == done + Statements(text[from..])
  }

  lemma ReachedStart(text: string)
    ensures Reached(text, 0, [])
  {
    assert text[0..] == text;
    assert [] + Statements(text) == Statements(text);
  }

  lemma Shift<T>(all: seq<T>, done: seq<T>, left: seq<T>, s: seq<T>, rest: seq<T>)
    requires all == done + left && left == s + rest
    ensures all == done + s + rest && done + s <= all
  {
  }

  lemma ReachedNext(text: string, from: nat, k: nat, done: seq<string>, sqlStmt: string)
    requires Reached(text, from, done) && IsFirst(text, from, Some(k)) && sqlStmt == Trim(text[from..k])
    ensures Reached(text, k + 1, done + Nonempty(sqlStmt))
    ensures done + Nonempty(sqlStmt) <= Statements(text)
  {
    StatementsFrom(text, from, k);
    Shift(Statements(text), done, Statements(text[from..]), Nonempty(sqlStmt), Statements(text[k + 1..]));
  }

  lemma ReachedEnd(text: string, from: nat, done: seq<string>)
    requires Reached(text, from, done) && IsFirst(text, from, None)
    ensures done == Statements(text)
  {
    assert done + [] == done;
  }

  function Terminated(statements: seq<string>): (r: seq<string>)
    ensures |r| == |statements|
    ensures forall i | 0 <= i < |r| :: r[i] == statements[i] + ";"
  {
    seq(|statements|, i requires 0 <= i < |statements| => statements[i] + ";")
  }

  lemma TerminatedAdd(done: seq<string>, s: string)
    ensures Terminated([]) == []
    ensures Terminated(done + Nonempty(s)) == if s == [] then Terminated(done) else Terminated(done) + [s + ";"]
  {
    if s == [] { assert done + Nonempty(s) == done; }
  }

  /** One round of the loop: find the next semicolon, trim what lies before it, move past it. */
  method NextStatement(text: string, searchPos: nat, ghost done: seq<string>)
    returns (found: bool, sqlStmt: string, next: nat)
    requires Reached(text, searchPos, done)
    ensures found ==> searchPos < next && Reached(text, next, done + Nonempty(sqlStmt))
    ensures found ==> done + Nonempty(sqlStmt) <= Statements(text)
    ensures !found ==> done == Statements(text)
  {
    var findResult := Find(text, searchPos);
    found, sqlStmt, next := findResult.Some?, "", searchPos;
    if found {
      next := findResult.value + 1;
      sqlStmt := TrimString(text[searchPos..next - 1]);
      ReachedNext(text, searchPos, next - 1, done, sqlStmt);
    } else {
      ReachedEnd(text, searchPos, done);
    }
  }

  method GetAllStatementsFromSchema(schema: string) returns (statements: seq<string>)
    ensures statements == Terminated(Statements(schema))
  {
    statements := [];
    ghost var done: seq<string> := [];
    ReachedStart(schema);
    TerminatedAdd([], "");
    var found, sqlStmt, searchPos := NextStatement(schema, 0, done);
    while found
      invariant found ==> searchPos <= |schema| && Reached(schema, searchPos, done + Nonempty(sqlStmt))
      invariant !found ==> done == Statements(schema)
      invariant statements == Terminated(done)
      decreases if found then |schema| + 1 - searchPos else 0
    {
      TerminatedAdd(done, sqlStmt);
      done := done + Nonempty(sqlStmt);
      if 0 < |sqlStmt| {
        statements := statements + [sqlStmt + ";"];
      }
      found, sqlStmt, searchPos := NextStatement(schema, searchPos, done);
    }
  }

  // ----- executing -----

  /** A connection that refuses some statements. */
  class Conn {
    const refuses: string -> bool
    var executed: seq<string>

    constructor (refuses: string -> bool)
      ensures this.refuses == refuses && executed == []
    {
      this.refuses := refuses;
      executed := [];
    }

    method ExecuteNonQuery(sql: string) returns (ok: bool)
      modifies this
      ensures ok <==> !refuses(sql)
      ensures executed == if ok then old(executed) + [sql] else old(executed)
    {
      ok := !refuses(sql);
      if ok { executed := executed + [sql]; }
    }
  }

  ghost predicate NoneRefused(refuses: string -> bool, statements: seq<string>) {
    forall i | 0 <= i < |statements| :: !refuses(statements[i])
  }

  lemma ExecutedAdd(refuses: string -> bool, before: seq<string>, done: seq<string>, s: string, all: seq<string>)
    requires NoneRefused(refuses, done) && done + Nonempty(s) <= all
    ensures s == [] ==> before + (done + Nonempty(s)) == before + done && NoneRefused(refuses, done + Nonempty(s))
    ensures s != [] ==> before + (done + Nonempty(s)) == before + done + [s] && done < all && all[|done|] == s
    ensures s != [] && !refuses(s) ==> NoneRefused(refuses, done + Nonempty(s))
  {
    if s == [] { assert done + Nonempty(s) == done; }
  }

  /** The statements run in order, up to the first one that the database refuses. */
  method ExecuteNonQueries(conn: Conn, sqlStmts: string) returns (ok: bool, ghost done: seq<string>)
    modifies conn
    ensures conn.executed == old(conn.executed) + done && NoneRefused(conn.refuses, done)
    ensures ok ==> done == Statements(sqlStmts)
    ensures !ok ==> done < Statements(sqlStmts) && conn.refuses(Statements(sqlStmts)[|done|])
  {
    done := [];
    ReachedStart(sqlStmts);
    var found, sqlStmt, searchPos := NextStatement(sqlStmts, 0, done);
    while found
      invariant found ==> searchPos <= |sqlStmts| && Reached(sqlStmts, searchPos, done + Nonempty(sqlStmt))
      invariant found ==> done + Nonempty(sqlStmt) <= Statements(sqlStmts)
      invariant !found ==> done == Statements(sqlStmts)
      invariant conn.executed == old(conn.executed) + done && NoneRefused(conn.refuses, done)
      decreases if found then |sqlStmts| + 1 - searchPos else 0
    {
      ExecutedAdd(conn.refuses, old(conn.executed), done, sqlStmt, Statements(sqlStmts));
      if 0 < |sqlStmt| {
        var executed := conn.ExecuteNonQuery(sqlStmt);
        if !executed {
          return false, done;
        }
      }
      done := done + Nonempty(sqlStmt);
      found, sqlStmt, searchPos := NextStatement(sqlStmts, searchPos, done);
    }
    ok := true;
  }

  // ----- what splitting means -----

  predicate Clean(s: string) {
    s != [] && Trimmed(s) && NoSemicolon(s)
  }

  lemma {:induction false} TrimKeepsClean(s: string)
    requires NoSemicolon(s)
    ensures NoSemicolon(Trim(s))
  {
    if s != [] {
      if IsSpace(s[0]) { TrimKeepsClean(s[1..]); }
      else if IsSpace(s[|s| - 1]) { TrimKeepsClean(s[..|s| - 1]); }
    }
  }

  /** Every statement is non-empty, trimmed and free of semicolons. */
  lemma {:induction false} StatementsAreClean(text: string)
    ensures forall s | s in Statements(text) :: Clean(s)
  {
    if !NoSemicolon(text) {
      var k := FirstSemicolon(text);
      TrimKeepsClean(text[..k]);
      StatementsAreClean(text[k + 1..]);
    }
  }

  function Concat(ss: seq<string>): string {
    if ss == [] then "" else ss[0] + Concat(ss[1..])
  }

  /** Joining any clean statements and splitting the text gives the statements back. */
  lemma {:induction false} SplitJoin(statements: seq<string>)
    requires forall s | s in statements :: Clean(s)
    ensures Statements(Concat(Terminated(statements))) == statements
  {
    if statements != [] {
      var s, rest := statements[0], statements[1..];
      assert s in statements && Clean(s);
      SplitJoin(rest);
      assert Terminated(statements)[1..] == Terminated(rest);
      StatementsCons(s, Concat(Terminated(rest)));
      TrimIs("", s, "");
      assert "" + s + "" == s;
      assert statements == [s] + rest;
    }
  }

  /** Splitting the concatenation of a split returns the same list. */
  lemma SplitIsStable(text: string)
    ensures Statements(Concat(Terminated(Statements(text)))) == Statements(text)
  {
    StatementsAreClean(text);
    SplitJoin(Statements(text));
  }

  // ----- what splitting drops -----

  /** The characters that are neither white space nor semicolons. */
  function Ink(s: string): string {
    if s == [] then "" else (if IsSpace(s[0]) || s[0] == ';' then "" else [s[0]]) + Ink(s[1..])
  }

  lemma TailOfConcat<T>(a: seq<T>, b: seq<T>)
    requires a != []
    ensures (a + b)[0] == a[0] && (a + b)[1..] == a[1..] + b
  {
  }

  lemma {:induction false} InkConcat(a: string, b: string)
    ensures Ink(a + b) == Ink(a) + Ink(b)
  {
    if a == [] {
      assert a + b == b;
    } else {
      InkConcat(a[1..], b);
      TailOfConcat(a, b);
    }
  }

  lemma {:induction false} InkTrim(s: string)
    ensures Ink(Trim(s)) == Ink(s)
  {
    if s != [] {
      var n := |s| - 1;
      if IsSpace(s[0]) {
        InkTrim(s[1..]);
      } else if IsSpace(s[n]) {
        InkTrim(s[..n]);
        InkConcat(s[..n], s[n..]);
        assert s == s[..n] + s[n..] && s[n..][1..] == "";
      }
    }
  }

  /** The text after the last semicolon. */
  function Tail(text: string): string {
    if NoSemicolon(text) then text else Tail(text[FirstSemicolon(text) + 1..])
  }

  /** The statements hold every visible character of the text, in order, up to the last semicolon. */
  lemma {:induction false} InkOfStatements(text: string)
    ensures Ink(text) == Ink(Concat(Statements(text))) + Ink(Tail(text))
  {
    if !NoSemicolon(text) {
      var k := FirstSemicolon(text);
      InkOfStatements(text[k + 1..]);
      InkOfFirst(text, k);
    }
  }

  lemma InkOfFirst(text: string, k: nat)
    requires k < |text| && text[k] == ';'
    ensures Ink(text) == Ink(Trim(text[..k])) + Ink(text[k + 1..])
    ensures Ink(Concat(Nonempty(Trim(text[..k])) + Statements(text[k + 1..]))) ==
      Ink(Trim(text[..k])) + Ink(Concat(Statements(text[k + 1..])))
  {
    var s, rest := text[..k], text[k + 1..];
    InkTrim(s);
    assert text == s + (";" + rest) && (";" + rest)[1..] == rest;
    InkConcat(s, ";" + rest);
    ConcatNonempty(Trim(s), Statements(rest));
    InkConcat(Trim(s), Concat(Statements(rest)));
  }

  lemma ConcatNonempty(s: string, rest: seq<string>)
    ensures Concat(Nonempty(s) + rest) == s + Concat(rest)
  {
    if s == [] {
      assert Nonempty(s) + rest == rest;
    } else {
      assert (Nonempty(s) + rest)[1..] == rest;
    }
  }

  /** Nothing visible is dropped if and only if the text after the last semicolon is blank. */
  lemma NothingDroppedIff(text: string)
    ensures Ink(Concat(Statements(text))) == Ink(text) <==> Blank(Tail(text))
  {
    InkOfStatements(text);
    TailHasNoSemicolon(text);
    InkIsBlank(Tail(text));
    var a, b := Ink(Concat(Statements(text))), Ink(Tail(text));
    assert a == a + b <==> b == "" by { assert |a + b| == |a| + |b|; if b == "" { assert a + b == a; } }
  }

  /** A text whose last statement has no semicolon: that statement is dropped. */
  lemma UnterminatedIsDropped(s: string, rest: string)
    requires NoSemicolon(s) && NoSemicolon(rest) && !Blank(rest)
    ensures Statements(s + ";" + rest) == Nonempty(Trim(s))
    ensures Ink(Concat(Statements(s + ";" + rest))) != Ink(s + ";" + rest)
  {
    StatementsCons(s, rest);
    FirstSemicolonIs(s, rest);
    var text := s + ";" + rest;
    assert text[|s| + 1..] == rest;
    NothingDroppedIff(text);
  }

  lemma SecondStatementIsDropped()
    ensures Statements("A; B") == ["A"] && Ink(Concat(Statements("A; B"))) != Ink("A; B")
  {
    assert "A; B" == "A" + ";" + " B";
    assert !IsSpace(" B"[1]);
    UnterminatedIsDropped("A", " B");
  }

  lemma {:induction false} TailHasNoSemicolon(text: string)
    ensures NoSemicolon(Tail(text))
  {
    if !NoSemicolon(text) { TailHasNoSemicolon(text[FirstSemicolon(text) + 1..]); }
  }

  lemma {:induction false} InkIsBlank(s: string)
    requires NoSemicolon(s)
    ensures Ink(s) == "" <==> Blank(s)
  {
    if s != [] {
      InkIsBlank(s[1..]);
      assert s == [s[0]] + s[1..];
    }
  }
}
