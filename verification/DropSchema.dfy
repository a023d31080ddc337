/** Dropping the catalogue schema (catalogue/DropSchemaCmd.cpp): every table is tried again and again
    until a round drops nothing, CTA_CATALOGUE is kept for last. The server refuses to drop a table
    that another remaining table references. */
module DropSchema {
  import opened Tables

  const CTA := "CTA_CATALOGUE"

  type References = map<string, set<string>>

  predicate Refers(refs: References, u: string, t: string) {
    u in refs && t in refs[u]
  }

  /** Another table in `tables` references `t`. */
  predicate Blocked(refs: References, tables: set<string>, t: string) {
    exists u | u in tables :: u != t && Refers(refs, u, t)
  }

  // ----- what cannot be dropped -----

  /** `s` is a set of tables, without CTA_CATALOGUE, each referenced by another member or by
      CTA_CATALOGUE. */
  predicate Stuck(refs: References, tables: set<string>, s: set<string>) {
    s <= tables - {CTA} && forall t | t in s :: Blocked(refs, s + ({CTA} * tables), t)
  }

  /** The largest such set. */
  ghost function Core(refs: References, tables: set<string>): set<string> {
    set t | t in tables && InStuck(refs, tables, t)
  }

  ghost predicate InStuck(refs: References, tables: set<string>, t: string) {
    exists s: set<string> :: t in s && Stuck(refs, tables, s)
  }

  lemma BlockedInMore(refs: References, s: set<string>, more: set<string>, t: string)
    requires Blocked(refs, s, t) && s <= more
    ensures Blocked(refs, more, t)
  {
  }

  lemma StuckIsInCore(refs: References, tables: set<string>, s: set<string>)
    requires Stuck(refs, tables, s)
    ensures s <= Core(refs, tables)
  {
    forall t | t in s ensures InStuck(refs, tables, t) {}
  }

  /** The core is itself stuck: it is the greatest stuck set. */
  lemma CoreIsStuck(refs: References, tables: set<string>)
    ensures Stuck(refs, tables, Core(refs, tables))
  {
    forall t | t in Core(refs, tables) ensures t != CTA && Blocked(refs, Core(refs, tables) + ({CTA} * tables), t) {
      var s: set<string> :| t in s && Stuck(refs, tables, s);
      StuckIsInCore(refs, tables, s);
      BlockedInMore(refs, s + ({CTA} * tables), Core(refs, tables) + ({CTA} * tables), t);
    }
  }

  /** What a stuck table or CTA_CATALOGUE references is stuck. */
  lemma CoreIsClosed(refs: References, tables: set<string>, u: string, t: string)
    requires u in Core(refs, tables) + ({CTA} * tables) && t in tables && t != CTA && t != u && Refers(refs, u, t)
    ensures t in Core(refs, tables)
  {
    CoreIsStuck(refs, tables);
    var s := Core(refs, tables) + {t};
    forall x | x in s ensures Blocked(refs, s + ({CTA} * tables), x) {
      if x in Core(refs, tables) {
        BlockedInMore(refs, Core(refs, tables) + ({CTA} * tables), s + ({CTA} * tables), x);
      }
    }
    assert Stuck(refs, tables, s);
    StuckIsInCore(refs, tables, s);
  }

  /** The foreign keys among `tables` have no cycle: in every non-empty set of tables some member is
      referenced by no other member. */
  ghost predicate Acyclic(refs: References, tables: set<string>) {
    forall s: set<string> | s <= tables && s != {} :: !AllBlocked(refs, s)
  }

  predicate AllBlocked(refs: References, s: set<string>) {
    forall t | t in s :: Blocked(refs, s, t)
  }

  /** No other table is referenced by CTA_CATALOGUE. */
  predicate NoneReferenced(refs: References, tables: set<string>) {
    CTA in tables ==> forall t | t in tables && t != CTA :: !Refers(refs, CTA, t)
  }

  lemma CycleIsInCore(refs: References, tables: set<string>)
    requires !Acyclic(refs, tables - {CTA})
    ensures Core(refs, tables) != {}
  {
    var s: set<string> :| s <= tables - {CTA} && s != {} && AllBlocked(refs, s);
    AllBlockedIsStuck(refs, tables, s);
    StuckIsInCore(refs, tables, s);
  }

  lemma AllBlockedIsStuck(refs: References, tables: set<string>, s: set<string>)
    requires s <= tables - {CTA} && AllBlocked(refs, s)
    ensures Stuck(refs, tables, s)
  {
    forall t | t in s ensures Blocked(refs, s + ({CTA} * tables), t) {
      BlockedInMore(refs, s, s + ({CTA} * tables), t);
    }
  }

  lemma CoreIsACycle(refs: References, tables: set<string>)
    requires Core(refs, tables) != {} && NoneReferenced(refs, tables)
    ensures !Acyclic(refs, tables - {CTA})
  {
    CoreIsStuck(refs, tables);
    var core := Core(refs, tables);
    forall t | t in core ensures Blocked(refs, core, t) {
      var u :| u in core + ({CTA} * tables) && u != t && Refers(refs, u, t);
      assert u in core;
    }
    assert core <= tables - {CTA} && AllBlocked(refs, core);
  }

  /** Everything can be dropped exactly when the rest is acyclic, apart from self-references, and
      CTA_CATALOGUE references none of it. */
  lemma CoreEmptyIff(refs: References, tables: set<string>)
    ensures Core(refs, tables) == {} <==> Acyclic(refs, tables - {CTA}) && NoneReferenced(refs, tables)
  {
    if !NoneReferenced(refs, tables) {
      var t :| t in tables && t != CTA && Refers(refs, CTA, t);
      CoreIsClosed(refs, tables, CTA, t);
    } else if !Acyclic(refs, tables - {CTA}) {
      CycleIsInCore(refs, tables);
    } else if Core(refs, tables) != {} {
      CoreIsACycle(refs, tables);
    }
  }

  lemma CoreShrinks(refs: References, tables: set<string>, fewer: set<string>)
    requires fewer <= tables
    ensures Core(refs, fewer) <= Core(refs, tables)
  {
    CoreIsStuck(refs, fewer);
    forall t | t in Core(refs, fewer) ensures Blocked(refs, Core(refs, fewer) + ({CTA} * tables), t) {
      BlockedInMore(refs, Core(refs, fewer) + ({CTA} * fewer), Core(refs, fewer) + ({CTA} * tables), t);
    }
    StuckIsInCore(refs, tables, Core(refs, fewer));
  }

  // ----- chains of references -----

  /** There is a chain of `n` references within `d` that ends in `t`. */
  ghost predicate HasChain(refs: References, d: set<string>, t: string, n: nat)
    decreases n
  {
    t in d && (n > 0 ==> exists u | u in d :: u != t && Refers(refs, u, t) && HasChain(refs, d, u, n - 1))
  }

  ghost predicate SomeChain(refs: References, d: set<string>, n: nat) {
    exists t | t in d :: HasChain(refs, d, t, n)
  }

  /** The tables of `path` reference each other, one after the other, up to `t`. */
  ghost predicate IsPath(refs: References, d: set<string>, path: seq<string>, t: string) {
    && path != [] && path[|path| - 1] == t && (forall i | 0 <= i < |path| :: path[i] in d)
    && forall i, j | 0 <= i < j < |path| && j == i + 1 ::
         path[i] != path[j] && path[i] in refs && path[j] in refs[path[i]]
  }

  lemma PathGrows(refs: References, d: set<string>, path: seq<string>, u: string, t: string)
    requires IsPath(refs, d, path, u) && t in d && u != t && u in refs && t in refs[u]
    ensures IsPath(refs, d, path + [t], t)
  {
    var more := path + [t];
    forall i, j | 0 <= i < j < |more| && j == i + 1
      ensures more[i] != more[j] && more[i] in refs && more[j] in refs[more[i]]
    {
      if j < |path| { assert more[i] == path[i] && more[j] == path[j]; }
    }
  }

  /** There is a chain of `n` references up to `t` exactly if there is such a path of `n + 1` tables. */
  lemma {:induction false} ChainIffPath(refs: References, d: set<string>, t: string, n: nat)
    ensures HasChain(refs, d, t, n) <==> exists path :: |path| == n + 1 && IsPath(refs, d, path, t)
    decreases n
  {
    if n == 0 {
      if HasChain(refs, d, t, n) { assert IsPath(refs, d, [t], t); }
    } else {
      if HasChain(refs, d, t, n) {
        var u :| u in d && u != t && Refers(refs, u, t) && HasChain(refs, d, u, n - 1);
        ChainIffPath(refs, d, u, n - 1);
        var path :| |path| == n && IsPath(refs, d, path, u);
        PathGrows(refs, d, path, u, t);
      }
      if path :| |path| == n + 1 && IsPath(refs, d, path, t) {
        var u := path[n - 1];
        assert path[n] == t && path[n - 1] != path[n];
        assert IsPath(refs, d, path[..n], u);
        ChainIffPath(refs, d, u, n - 1);
        assert Refers(refs, u, t);
      }
    }
  }

  /** The tables that can be dropped before CTA_CATALOGUE. */
  ghost function Droppable(refs: References, tables: set<string>): set<string> {
    tables - {CTA} - Core(refs, tables)
  }

  // ----- the database and the command -----

  datatype Snapshot = Snapshot(tables: set<string>, sequences: set<string>)

  class Database {
    var tables: set<string>
    var sequences: set<string>
    const references: References
    /** The sequences that the server refuses to drop. */
    const refused: set<string>
    /** The row of CTA_CATALOGUE, if it has one: the production flag. */
    const isProduction: Option<bool>
    /** Every state the database has been in. */
    ghost var trace: seq<Snapshot>

    constructor (tables: set<string>, sequences: set<string>, references: References, refused: set<string>,
                 isProduction: Option<bool>)
      ensures this.tables == tables && this.sequences == sequences
      ensures this.references == references && this.refused == refused
      ensures this.isProduction == isProduction && trace == [Snapshot(tables, sequences)]
    {
      this.tables := tables;
      this.sequences := sequences;
      this.references := references;
      this.refused := refused;
      this.isProduction := isProduction;
      this.trace := [Snapshot(tables, sequences)];
    }

    /** The names of the tables or sequences, in the order the server returns them. */
    static method List(names: set<string>) returns (listed: seq<string>)
      ensures Enumerates(listed, names)
    {
      listed := [];
      var rest := names;
      while rest != {}
        invariant rest <= names && Enumerates(listed, names - rest)
      {
        var t :| t in rest;
        rest := rest - {t};
        assert t !in listed by { EnumeratesMember(listed, names - (rest + {t}), t); }
        assert (set x | x in listed + [t]) == (set x | x in listed) + {t};
        listed := listed + [t];
      }
      assert names - {} == names;
    }

    /** DROP TABLE. */
    method DropTable(t: string) returns (ok: bool)
      modifies this
      ensures ok <==> t in old(tables) && !Blocked(references, old(tables), t)
      ensures ok <==>
        t in old(tables) && forall u | u in old(tables) && u != t && u in references :: t !in references[u]
      ensures tables == (if ok then old(tables) - {t} else old(tables)) && sequences == old(sequences)
      ensures trace == if ok then old(trace) + [Snapshot(tables, sequences)] else old(trace)
    {
      ok := t in tables && !Blocked(references, tables, t);
      if ok {
        tables := tables - {t};
        trace := trace + [Snapshot(tables, sequences)];
      }
    }

    /** DROP SEQUENCE. */
    method DropSequence(name: string) returns (ok: bool)
      modifies this
      ensures ok <==> name !in refused
      ensures sequences == (if ok then old(sequences) - {name} else old(sequences)) && tables == old(tables)
      ensures trace == if ok then old(trace) + [Snapshot(tables, sequences)] else old(trace)
    {
      ok := name !in refused;
      if ok {
        sequences := sequences - {name};
        trace := trace + [Snapshot(tables, sequences)];
      }
    }
  }

  /** As long as anything is left, CTA_CATALOGUE and with it the production flag is. */
  predicate Guarded(s: Snapshot) {
    (s.tables == {} && s.sequences == {}) || CTA in s.tables
  }

  /** No table is left with a reference to a table that is gone. */
  predicate NoneDangling(refs: References, start: set<string>, tables: set<string>) {
    forall u, t | u in tables && u in refs && t in refs[u] && t in start :: t in tables
  }

  lemma DropKeepsReferences(refs: References, start: set<string>, tables: set<string>, t: string)
    requires NoneDangling(refs, start, tables) && !Blocked(refs, tables, t)
    ensures NoneDangling(refs, start, tables - {t})
  {
    forall u, x | u in tables - {t} && u in refs && x in refs[u] && x in start ensures x in tables - {t} {
      assert Refers(refs, u, x);
    }
  }

  ghost predicate GuardedTrace(
      refs: References, trace: seq<Snapshot>, tables: set<string>, sequences: set<string>)
  {
    forall s | s in trace ::
      Guarded(s) && s.tables <= tables && s.sequences <= sequences && NoneDangling(refs, tables, s.tables)
  }

  /** What a member of `core`, or CTA_CATALOGUE, references is in `core`. */
  predicate ClosedUnder(refs: References, tables: set<string>, core: set<string>) {
    forall u, t | u in core + ({CTA} * tables) && t in tables && t != CTA && t != u && Refers(refs, u, t) :: t in core
  }

  /** A table that was refused in this round, and is not in the core, is referenced by one that was
      still there at the start of the round, and extends that one's chain. */
  lemma RefusedExtendsChain(refs: References, start: set<string>, core: set<string>, tables: set<string>, t: string,
      n: nat)
    requires ClosedUnder(refs, start, core) && tables <= start && Blocked(refs, tables, t)
    requires t in start - {CTA} - core
    requires forall u | u in tables && u in start - {CTA} - core :: HasChain(refs, start - {CTA} - core, u, n)
    ensures HasChain(refs, start - {CTA} - core, t, n + 1)
  {
    var u :| u in tables && u != t && Refers(refs, u, t);
    assert u in start - {CTA} - core;
  }

  /** A table of the core is refused while the core and CTA_CATALOGUE are there. */
  lemma CoreIsRefused(refs: References, start: set<string>, core: set<string>, tables: set<string>, t: string)
    requires Stuck(refs, start, core) && core + ({CTA} * start) <= tables && t in core
    ensures Blocked(refs, tables, t)
  {
    BlockedInMore(refs, core + ({CTA} * start), tables, t);
  }

  /** All tables in `tables` outside `core` end a chain of `n` references. */
  ghost predicate AllChains(refs: References, d: set<string>, tables: set<string>, n: nat) {
    forall t | t in tables && t in d :: HasChain(refs, d, t, n)
  }

  /** All the states in `trace` still have CTA_CATALOGUE, if it was there, and these sequences, and no
      dangling reference. */
  predicate Kept(refs: References, trace: seq<Snapshot>, start: set<string>, sequences: set<string>) {
    forall i | 0 <= i < |trace| ::
      && trace[i].sequences == sequences && trace[i].tables <= start && (CTA in start ==> CTA in trace[i].tables)
      && NoneDangling(refs, start, trace[i].tables)
  }

  /** One round: every table but CTA_CATALOGUE is tried once; failures are ignored. */
  method DropRound(db: Database, ghost start: set<string>, ghost core: set<string>, ghost n: nat)
    returns (dropped: bool)
    requires Stuck(db.references, start, core) && ClosedUnder(db.references, start, core)
    requires core + ({CTA} * start) <= db.tables <= start && NoneDangling(db.references, start, db.tables)
    requires AllChains(db.references, start - {CTA} - core, db.tables, n)
    modifies db
    ensures db.sequences == old(db.sequences) && core + ({CTA} * start) <= db.tables <= old(db.tables)
    ensures dropped ==> db.tables != old(db.tables) && SomeChain(db.references, start - {CTA} - core, n)
    ensures !dropped ==> db.tables == old(db.tables)
    ensures !dropped ==> forall t | t in db.tables && t != CTA :: Blocked(db.references, db.tables, t)
    ensures AllChains(db.references, start - {CTA} - core, db.tables, n + 1)
    ensures NoneDangling(db.references, start, db.tables)
    ensures old(db.trace) <= db.trace && Kept(db.references, db.trace[|old(db.trace)|..], start, db.sequences)
  {
    ghost var d := start - {CTA} - core;
    ghost var before := db.tables;
    dropped := false;
    var names := Database.List(db.tables);
    for i := 0 to |names|
      invariant db.sequences == old(db.sequences) && core + ({CTA} * start) <= db.tables <= before
      invariant NoneDangling(db.references, start, db.tables)
      invariant dropped ==> db.tables != before && SomeChain(db.references, d, n)
      invariant !dropped ==> db.tables == before
      invariant !dropped ==> forall k | 0 <= k < i && names[k] != CTA :: Blocked(db.references, before, names[k])
      invariant forall k | 0 <= k < i && names[k] in db.tables && names[k] in d ::
        HasChain(db.references, d, names[k], n + 1)
      invariant old(db.trace) <= db.trace && Kept(db.references, db.trace[|old(db.trace)|..], start, db.sequences)
    {
      var t := names[i];
      EnumeratesMember(names, before, t);
      if t != CTA {
        dropped := TryDrop(db, t, start, core, before, n, dropped);
      }
    }
    forall t | t in before ensures exists k | 0 <= k < |names| :: names[k] == t { EnumeratesMember(names, before, t); }
  }

  /** One table of a round. */
  method TryDrop(db: Database, t: string, ghost start: set<string>, ghost core: set<string>, ghost before: set<string>,
                 ghost n: nat, droppedBefore: bool) returns (dropped: bool)
    requires Stuck(db.references, start, core) && ClosedUnder(db.references, start, core)
    requires core + ({CTA} * start) <= db.tables <= before <= start && t in before && t != CTA
    requires droppedBefore || t in db.tables
    requires NoneDangling(db.references, start, db.tables)
    requires AllChains(db.references, start - {CTA} - core, before, n)
    modifies db
    ensures db.sequences == old(db.sequences) && core + ({CTA} * start) <= db.tables
    ensures NoneDangling(db.references, start, db.tables)
    ensures dropped <==> droppedBefore || db.tables != old(db.tables)
    ensures db.tables == old(db.tables) ||
      (db.tables == old(db.tables) - {t} && SomeChain(db.references, start - {CTA} - core, n))
    ensures !dropped ==> db.tables == old(db.tables) && Blocked(db.references, db.tables, t)
    ensures t in db.tables && t in start - {CTA} - core ==> HasChain(db.references, start - {CTA} - core, t, n + 1)
    ensures old(db.trace) <= db.trace
    ensures db.trace == old(db.trace) || db.trace == old(db.trace) + [Snapshot(db.tables, db.sequences)]
  {
    dropped := droppedBefore;
    if t in core { CoreIsRefused(db.references, start, core, db.tables, t); }
    if !Blocked(db.references, db.tables, t) { DropKeepsReferences(db.references, start, db.tables, t); }
    var ok := db.DropTable(t);
    if ok {
      dropped := true;
      assert HasChain(db.references, start - {CTA} - core, t, n);
    } else if t in db.tables && t in start - {CTA} - core {
      RefusedExtendsChain(db.references, start, core, db.tables, t, n);
    }
  }

  /** What is left of `start` when the rounds are over: the core and CTA_CATALOGUE. */
  lemma LeftIsCore(refs: References, start: set<string>, tables: set<string>)
    requires Core(refs, start) + ({CTA} * start) <= tables <= start
    requires forall t | t in tables && t != CTA :: Blocked(refs, tables, t)
    ensures tables == Core(refs, start) + ({CTA} * start)
  {
    var s := tables - {CTA};
    assert s + ({CTA} * start) == tables;
    assert Stuck(refs, start, s);
    StuckIsInCore(refs, start, s);
  }

  /** The rounds of dropDatabaseTables: they end, in a number of rounds bounded by the chains of
      references among the tables that can be dropped, and leave exactly the core, whatever the order
      in which the server lists the tables. */
  method DropAllButCatalogue(db: Database) returns (rounds: nat)
    modifies db
    ensures db.tables == Core(db.references, old(db.tables)) + ({CTA} * old(db.tables)) &&
      db.sequences == old(db.sequences)
    ensures rounds >= 1
    ensures rounds >= 2 ==> SomeChain(db.references, Droppable(db.references, old(db.tables)), rounds - 2)
    ensures old(db.trace) <= db.trace && Kept(db.references, db.trace[|old(db.trace)|..], old(db.tables), db.sequences)
  {
    ghost var start := db.tables;
    ghost var core := Core(db.references, start);
    CoreIsStuck(db.references, start);
    assert ClosedUnder(db.references, start, core) by {
      forall u, t | u in core + ({CTA} * start) && t in start && t != CTA && t != u && Refers(db.references, u, t)
        ensures t in core {
        CoreIsClosed(db.references, start, u, t);
      }
    }
    var droppedAtLeastOneTable := true;
    rounds := 0;
    while droppedAtLeastOneTable
      invariant db.sequences == old(db.sequences) && core + ({CTA} * start) <= db.tables <= start
      invariant NoneDangling(db.references, start, db.tables)
      invariant AllChains(db.references, start - {CTA} - core, db.tables, rounds)
      invariant droppedAtLeastOneTable && rounds > 0 ==> SomeChain(db.references, start - {CTA} - core, rounds - 1)
      invariant !droppedAtLeastOneTable ==>
        rounds > 0 && (rounds > 1 ==> SomeChain(db.references, start - {CTA} - core, rounds - 2))
      invariant !droppedAtLeastOneTable ==>
        forall t | t in db.tables && t != CTA :: Blocked(db.references, db.tables, t)
      invariant old(db.trace) <= db.trace && Kept(db.references, db.trace[|old(db.trace)|..], start, db.sequences)
      decreases db.tables, droppedAtLeastOneTable
    {
      droppedAtLeastOneTable := DropRound(db, start, core, rounds);
      rounds := rounds + 1;
    }
    LeftIsCore(db.references, start, db.tables);
  }

  /** dropDatabaseTables succeeds if and only if CTA_CATALOGUE exists and everything else can be
      dropped; it then leaves nothing, and otherwise it keeps CTA_CATALOGUE. */
  method DropDatabaseTables(db: Database) returns (ok: bool)
    modifies db
    ensures db.sequences == old(db.sequences)
    ensures ok <==> CTA in old(db.tables) && Core(db.references, old(db.tables)) == {}
    ensures ok ==> db.tables == {}
    ensures !ok ==> db.tables == Core(db.references, old(db.tables)) + ({CTA} * old(db.tables))
    ensures old(db.trace) <= db.trace
    ensures CTA in old(db.tables) && db.sequences == {} ==>
      GuardedTrace(db.references, db.trace[|old(db.trace)|..], old(db.tables), {})
  {
    var rounds := DropAllButCatalogue(db);
    ghost var core := Core(db.references, old(db.tables));
    CoreIsStuck(db.references, old(db.tables));
    if |db.tables| != 1 {
      LeftAlone(db.references, old(db.tables), db.tables);
      return false;
    }
    LeftAlone(db.references, old(db.tables), db.tables);
    ok := db.DropTable(CTA);
    ok := db.tables == {};
  }

  /** One single table is left exactly when it is CTA_CATALOGUE and the core is empty. */
  lemma LeftAlone(refs: References, start: set<string>, tables: set<string>)
    requires tables == Core(refs, start) + ({CTA} * start)
    ensures |tables| == 1 <==> CTA in start && Core(refs, start) == {}
    ensures |tables| == 1 ==> tables == {CTA}
  {
    CoreIsStuck(refs, start);
    if Core(refs, start) != {} {
      var t :| t in Core(refs, start);
      var u :| u in tables && u != t && Refers(refs, u, t);
      TwoMembers(tables, t, u);
    } else {
      assert tables == {CTA} * start;
      assert tables == if CTA in start then {CTA} else {};
    }
  }

  lemma TwoMembers<T>(s: set<T>, t: T, u: T)
    requires t in s && u in s && t != u
    ensures |s| >= 2
  {
    assert {t, u} <= s;
    assert |s| == |{t, u}| + |s - {t, u}| by { assert s == {t, u} + (s - {t, u}); }
  }

  datatype DbType = Postgres | Oracle | Sqlite | InMemory | NoType

  /** dropDatabaseSequences: drops one after the other and throws at the first that is refused, which is
      then still there; it succeeds if and only if none is refused. */
  method DropDatabaseSequences(db: Database) returns (ok: bool)
    modifies db
    ensures ok <==> old(db.sequences) !! db.refused
    ensures db.tables == old(db.tables) && db.sequences <= old(db.sequences)
    ensures ok ==> db.sequences == {}
    ensures old(db.sequences) * db.refused <= db.sequences
    ensures old(db.trace) <= db.trace
    ensures forall i | |old(db.trace)| <= i < |db.trace| ::
      db.trace[i].tables == db.tables && db.trace[i].sequences <= old(db.sequences)
  {
    var names := Database.List(db.sequences);
    ghost var all := db.sequences;
    for i := 0 to |names|
      invariant db.tables == old(db.tables) && old(db.trace) <= db.trace
      invariant db.sequences == all - (set k | 0 <= k < i :: names[k])
      invariant forall k | 0 <= k < i :: names[k] !in db.refused
      invariant forall j | |old(db.trace)| <= j < |db.trace| ::
        db.trace[j].tables == db.tables && db.trace[j].sequences <= all
    {
      var dropped := db.DropSequence(names[i]);
      if !dropped {
        EnumeratesMember(names, all, names[i]);
        return false;
      }
    }
    forall s | s in all ensures exists k | 0 <= k < |names| :: names[k] == s { EnumeratesMember(names, all, s); }
    ok := true;
  }

  /** dropCatalogueSchema: sequences first, then tables, and no table if a sequence is refused. From a
      database that has CTA_CATALOGUE, every state on the way keeps CTA_CATALOGUE as long as anything
      else is left. */
  method DropCatalogueSchema(db: Database, dbType: DbType) returns (ok: bool)
    modifies db
    ensures !dbType.Postgres? && !dbType.Oracle? ==>
      !ok && db.tables == old(db.tables) && db.sequences == old(db.sequences) && db.trace == old(db.trace)
    ensures dbType.Postgres? || dbType.Oracle? ==>
      && (ok <==> old(db.sequences) !! db.refused && CTA in old(db.tables) && Core(db.references, old(db.tables)) == {})
      && (ok ==> db.tables == {} && db.sequences == {})
      && (!(old(db.sequences) !! db.refused) ==> db.tables == old(db.tables))
    ensures old(db.trace) <= db.trace
    ensures CTA in old(db.tables) ==>
      GuardedTrace(db.references, db.trace[|old(db.trace)|..], old(db.tables), old(db.sequences))
  {
    if dbType.Sqlite? || dbType.InMemory? || dbType.NoType? {
      ok := false;
    } else {
      ok := DropDatabaseSequences(db);
      if !ok { return; }
      ghost var middle := db.trace;
      ok := DropDatabaseTables(db);
      ghost var n := |old(db.trace)|;
      assert db.trace[n..] == middle[n..] + db.trace[|middle|..];
    }
  }

  datatype Outcome = AlreadyDropped | Refused | NoCatalogueTable | Aborted | Dropped | Failed

  /** exceptionThrowingMain: nothing left is success; a production database is refused; so is one
      whose CTA_CATALOGUE cannot be read; otherwise the schema is dropped if the user says yes. */
  method Execute(db: Database, dbType: DbType, confirmed: bool) returns (r: Outcome)
    modifies db
    ensures r.AlreadyDropped? <==> old(db.tables) == {} && old(db.sequences) == {}
    ensures CTA in old(db.tables) && db.isProduction == Some(true) ==> r.Refused?
    ensures !confirmed ==> !r.Dropped? && !r.Failed?
    ensures !r.Dropped? && !r.Failed? ==>
      db.tables == old(db.tables) && db.sequences == old(db.sequences) && db.trace == old(db.trace)
    ensures r.Dropped? ==> db.tables == {} && db.sequences == {}
    ensures confirmed && (dbType.Postgres? || dbType.Oracle?) && CTA in old(db.tables)
            && db.isProduction != Some(true) ==>
      (r.Dropped? <==> old(db.sequences) !! db.refused && Core(db.references, old(db.tables)) == {})
    ensures old(db.trace) <= db.trace
    ensures GuardedTrace(db.references, db.trace[|old(db.trace)|..], old(db.tables), old(db.sequences))
  {
    if db.tables == {} && db.sequences == {} { return AlreadyDropped; }
    if CTA !in db.tables { return NoCatalogueTable; }
    if db.isProduction == Some(true) { return Refused; }
    if !confirmed { return Aborted; }
    var ok := DropCatalogueSchema(db, dbType);
    r := if ok then Dropped else Failed;
  }

  /** In whatever state a drop of a schema that can be dropped was cut off, either nothing is left, or
      CTA_CATALOGUE is there and everything can still be dropped. */
  lemma CanBeRestarted(refs: References, tables: set<string>, sequences: set<string>, trace: seq<Snapshot>, s: Snapshot)
    requires Core(refs, tables) == {} && GuardedTrace(refs, trace, tables, sequences) && s in trace
    ensures (s.tables == {} && s.sequences == {}) || (CTA in s.tables && Core(refs, s.tables) == {})
  {
    CoreShrinks(refs, tables, s.tables);
  }

  /** A drop that is cut off in state `s` and run again there: if the schema could be dropped, nothing is
      left at the end, whatever the state. */
  method CutOffAndRunAgain(db: Database, dbType: DbType, s: Snapshot) returns (r: Outcome, again: Database)
    modifies db
    ensures fresh(again) && old(db.trace) <= db.trace
    ensures && (dbType.Postgres? || dbType.Oracle?) && CTA in old(db.tables) && db.isProduction != Some(true)
            && old(db.sequences) !! db.refused && Core(db.references, old(db.tables)) == {}
            && s in db.trace[|old(db.trace)|..] ==>
      (r.AlreadyDropped? || r.Dropped?) && again.tables == {} && again.sequences == {}
  {
    var first := Execute(db, dbType, true);
    again := new Database(s.tables, s.sequences, db.references, db.refused, db.isProduction);
    ghost var trace := db.trace[|old(db.trace)|..];
    if Core(db.references, old(db.tables)) == {} && s in trace {
      CanBeRestarted(db.references, old(db.tables), old(db.sequences), trace, s);
    }
    r := Execute(again, dbType, true);
  }

  // ----- which way a reference points -----

  /** Of two tables the referencing one has to go first. */
  lemma ReferencingTableGoesFirst(child: string, parent: string)
    requires child != parent && child != CTA && parent != CTA
    ensures var refs, tables := map[child := {parent}], {child, parent, CTA};
      && Blocked(refs, tables, parent) && !Blocked(refs, tables, child) && !Blocked(refs, tables - {child}, parent)
      && NoneDangling(refs, tables, {parent, CTA}) && !NoneDangling(refs, tables, {child, CTA})
  {
    assert Refers(map[child := {parent}], child, parent);
  }

  /** And then both can go. */
  lemma BothTablesGo(child: string, parent: string)
    requires child != parent && child != CTA && parent != CTA
    ensures Core(map[child := {parent}], {child, parent, CTA}) == {}
  {
    var refs, tables := map[child := {parent}], {child, parent, CTA};
    CoreIsStuck(refs, tables);
    var core := Core(refs, tables);
    assert !Blocked(refs, core + ({CTA} * tables), child);
    assert child !in core + ({CTA} * tables);
    assert !Blocked(refs, core + ({CTA} * tables), parent);
  }

  /** A table that references CTA_CATALOGUE can be dropped; one that CTA_CATALOGUE references cannot. */
  lemma ReferencesToCatalogue(t: string)
    requires t != CTA
    ensures Core(map[t := {CTA}], {t, CTA}) == {}
    ensures Core(map[CTA := {t}], {t, CTA}) == {t}
  {
    CoreIsStuck(map[t := {CTA}], {t, CTA});
    CoreIsStuck(map[CTA := {t}], {t, CTA});
    var refs := map[CTA := {t}];
    assert Refers(refs, CTA, t);
    assert Stuck(refs, {t, CTA}, {t});
    StuckIsInCore(refs, {t, CTA}, {t});
  }
}
