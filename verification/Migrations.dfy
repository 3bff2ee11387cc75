/**
 The migration chain guard and the migration executor.

 The first part is the guard's chain rule and the executor's discovery of the chain. The second is the
 executor as a state machine: any number of runners, of any revisions, each reading the ledger once and
 then applying what it found pending, one transaction at a time, and each able to die between any two
 transactions. The class at the end is one runner's main routine.
 */
module Migrations {
  import opened Options

  // ------------------------------------------------------------------ file names and the chain

  // A file name as the two scripts see it: one that matches NNN_lower_snake.sql with its number, one
  // that only starts with the reset helper's 000_, or anything else.
  datatype Name = Matching(version: nat) | ResetHelper | Misnamed

  datatype File = File(name: Name, body: string)

  datatype Migration = Migration(version: nat, body: string)

  datatype ChainError = Duplicate(version: nat) | Gap(version: nat) | BadStart(version: nat)

  function Versions(files: seq<File>): seq<nat> {
    if files == [] then []
    else if files[0].name.Matching? then [files[0].name.version] + Versions(files[1..])
    else Versions(files[1..])
  }

  function Numbered(versions: seq<nat>): set<nat> {
    set v | v in versions && v != 0
  }

  predicate Repeats(versions: seq<nat>, v: nat) {
    exists i, j :: 0 <= i < j < |versions| && versions[i] == v && versions[j] == v
  }

  predicate Least(s: set<nat>, v: nat) {
    v in s && forall w :: w in s ==> v <= w
  }

  // v lies between two members of s without being one.
  predicate IsGap(s: set<nat>, v: nat) {
    v !in s && (exists w :: w in s && w < v) && (exists w :: w in s && v < w)
  }

  ghost predicate IsUpTo(s: set<nat>, n: nat) {
    forall v :: v in s <==> 1 <= v <= n
  }

  // The versions are 1 to n, each once; 0 is the reset helper and may appear once.
  ghost predicate Contiguous(versions: seq<nat>) {
    && (forall v :: !Repeats(versions, v))
    && exists n: nat :: IsUpTo(Numbered(versions), n)
  }

  method CheckChain(files: seq<File>) returns (errors: seq<ChainError>)
    ensures forall v :: Duplicate(v) in errors <==> Repeats(Versions(files), v)
    ensures forall v :: Gap(v) in errors <==> IsGap(Numbered(Versions(files)), v)
    ensures forall v :: BadStart(v) in errors <==> v != 1 && Least(Numbered(Versions(files)), v)
  {
    var versions := Versions(files);
    errors := [];
    var seen: set<nat> := {};
    for i := 0 to |versions|
      invariant forall v :: v in seen <==> v in versions[..i]
      invariant forall e :: e in errors ==> e.Duplicate?
      invariant forall v :: Duplicate(v) in errors <==> Repeats(versions[..i], v)
    {
      var v := versions[i];
      RepeatsGrow(versions, i);
      if v in seen {
        errors := errors + [Duplicate(v)];
      }
      seen := seen + {v};
    }
    assert versions[..|versions|] == versions;
    var numbered := set v | v in seen && v != 0;
    assert numbered == Numbered(versions);
    if numbered != {} {
      var lo, hi := Bounds(numbered);
      var v := lo;
      while v <= hi
        invariant lo <= v <= hi + 1
        invariant forall w :: Duplicate(w) in errors <==> Repeats(versions, w)
        invariant forall w :: BadStart(w) !in errors
        invariant forall w :: Gap(w) in errors <==> w < v && IsGap(numbered, w)
      {
        if v !in numbered {
          assert IsGap(numbered, v);
          errors := errors + [Gap(v)];
        }
        v := v + 1;
      }
      if lo != 1 {
        errors := errors + [BadStart(lo)];
      }
    }
  }

  lemma RepeatsGrow(versions: seq<nat>, i: nat)
    requires i < |versions|
    ensures forall v :: Repeats(versions[..i + 1], v) <==>
      Repeats(versions[..i], v) || (v == versions[i] && v in versions[..i])
  {
    var a, b := versions[..i], versions[..i + 1];
    forall v ensures Repeats(b, v) <==> Repeats(a, v) || (v == versions[i] && v in a) {
      if Repeats(a, v) {
        var j, k :| 0 <= j < k < |a| && a[j] == v && a[k] == v;
        assert b[j] == v && b[k] == v;
      }
      if v == versions[i] && v in a {
        var j :| 0 <= j < |a| && a[j] == v;
        assert b[j] == v && b[i] == v;
      }
      if Repeats(b, v) {
        var j, k :| 0 <= j < k < |b| && b[j] == v && b[k] == v;
        assert a[j] == v;
        if k < i {
          assert a[k] == v;
        }
      }
    }
  }

  method Bounds(s: set<nat>) returns (lo: nat, hi: nat)
    requires s != {}
    ensures lo in s && hi in s && forall v :: v in s ==> lo <= v <= hi
  {
    var first :| first in s;
    lo, hi := first, first;
    var rest := s - {first};
    while rest != {}
      invariant rest <= s && lo in s && hi in s
      invariant forall v :: v in s && v !in rest ==> lo <= v <= hi
      decreases |rest|
    {
      var v :| v in rest;
      rest := rest - {v};
      if v < lo { lo := v; }
      if v > hi { hi := v; }
    }
  }

  // A guard that reports nothing has seen exactly the versions 1 to n.
  lemma SilentGuardMeansContiguous(versions: seq<nat>)
    ensures Contiguous(versions) <==>
      && (forall v :: !Repeats(versions, v))
      && (forall v :: !IsGap(Numbered(versions), v))
      && (forall v :: Least(Numbered(versions), v) ==> v == 1)
  {
    var s := Numbered(versions);
    if (forall v :: !Repeats(versions, v)) && (forall v :: !IsGap(s, v)) && (forall v :: Least(s, v) ==> v == 1) {
      if s == {} {
        assert IsUpTo(s, 0);
      } else {
        var lo, hi := LeastAndGreatest(s);
        assert Least(s, lo);
        forall v: nat | 1 <= v <= hi ensures v in s {
          assert !IsGap(s, v);
        }
        assert IsUpTo(s, hi);
      }
    }
    if Contiguous(versions) {
      var n: nat :| IsUpTo(s, n);
      forall v | Least(s, v) ensures v == 1 {
        assert n >= 1 && 1 in s;
      }
    }
  }

  lemma {:induction false} LeastAndGreatest(s: set<nat>) returns (lo: nat, hi: nat)
    requires s != {}
    ensures lo in s && hi in s && forall v :: v in s ==> lo <= v <= hi
    decreases |s|
  {
    var x :| x in s;
    lo, hi := x, x;
    if s != {x} {
      var rest := s - {x};
      assert s == rest + {x};
      assert rest != {};
      lo, hi := LeastAndGreatest(rest);
      lo, hi := if x < lo then x else lo, if x > hi then x else hi;
    }
  }

  datatype Discovery = Chain(chain: seq<Migration>) | Refused

  // The migrations among the files, in order; the reset helper is not one.
  function Migrating(files: seq<File>): seq<Migration> {
    if files == [] then []
    else if files[0].name.Matching? && files[0].name.version != 0 then
      [Migration(files[0].name.version, files[0].body)] + Migrating(files[1..])
    else Migrating(files[1..])
  }

  // A directory listing is sorted by name, which sorts the matching names by version.
  predicate Sorted(files: seq<File>) {
    forall i, j :: 0 <= i < j < |files| && files[i].name.Matching? && files[j].name.Matching? ==>
      files[i].name.version <= files[j].name.version
  }

  predicate HasMisnamed(files: seq<File>) {
    exists i :: 0 <= i < |files| && files[i].name.Misnamed?
  }

  predicate HasDuplicate(chain: seq<Migration>) {
    exists i, j :: 0 <= i < j < |chain| && chain[i].version == chain[j].version
  }

  // The chain holds exactly the numbered files, with their own bodies.
  lemma {:induction false} MigrationsAreTheFiles(files: seq<File>, m: Migration)
    ensures m in Migrating(files) <==> m.version > 0 && File(Matching(m.version), m.body) in files
  {
    if files != [] {
      MigrationsAreTheFiles(files[1..], m);
      assert files == [files[0]] + files[1..];
    }
  }

  // Of a sorted directory they come in order.
  lemma MigrationsAscend(files: seq<File>, i: nat, j: nat)
    requires Sorted(files) && i < j < |Migrating(files)|
    ensures Migrating(files)[i].version <= Migrating(files)[j].version
  {
    VersionsAscend(files);
    MigratingVersions(files);
    var k := NonzeroIsATail(Versions(files));
    assert Migrating(files)[i].version == Versions(files)[k + i];
    assert Migrating(files)[j].version == Versions(files)[k + j];
  }

  // Two files bear the number v.
  predicate TwoBear(files: seq<File>, v: nat) {
    exists i, j :: 0 <= i < j < |files| && files[i].name == files[j].name == Matching(v)
  }

  predicate OneBears(files: seq<File>, v: nat) {
    exists i :: 0 <= i < |files| && files[i].name == Matching(v)
  }

  lemma BearersUnfold(files: seq<File>, v: nat)
    requires files != []
    ensures OneBears(files, v) <==> files[0].name == Matching(v) || OneBears(files[1..], v)
    ensures TwoBear(files, v) <==> TwoBear(files[1..], v) || (files[0].name == Matching(v) && OneBears(files[1..], v))
  {
    var rest := files[1..];
    if i :| 0 <= i < |rest| && rest[i].name == Matching(v) {
      assert files[i + 1].name == Matching(v);
    }
    if i :| 0 < i < |files| && files[i].name == Matching(v) {
      assert rest[i - 1].name == Matching(v);
    }
    if i, j :| 0 <= i < j < |rest| && rest[i].name == rest[j].name == Matching(v) {
      assert files[i + 1].name == files[j + 1].name == Matching(v);
    }
    if i, j :| 0 <= i < j < |files| && files[i].name == files[j].name == Matching(v) {
      assert rest[j - 1].name == Matching(v);
      assert i > 0 ==> rest[i - 1].name == Matching(v);
    }
  }

  lemma RepeatsUnfold(first: nat, later: seq<nat>, v: nat)
    ensures Repeats([first] + later, v) <==> Repeats(later, v) || (first == v && v in later)
  {
    var all := [first] + later;
    if i, j :| 0 <= i < j < |later| && later[i] == v && later[j] == v {
      assert all[i + 1] == v && all[j + 1] == v;
    }
    if first == v && v in later {
      var j :| 0 <= j < |later| && later[j] == v;
      assert all[0] == v && all[j + 1] == v;
    }
    if i, j :| 0 <= i < j < |all| && all[i] == v && all[j] == v {
      assert later[j - 1] == v;
      assert i > 0 ==> later[i - 1] == v;
    }
  }

  // The numbers the chain guard judges are those the files bear, repeated where two files bear one.
  lemma {:induction false} VersionsAreBorne(files: seq<File>, v: nat)
    ensures v in Versions(files) <==> OneBears(files, v)
    ensures Repeats(Versions(files), v) <==> TwoBear(files, v)
  {
    if files != [] {
      VersionsAreBorne(files[1..], v);
      BearersUnfold(files, v);
      if files[0].name.Matching? {
        RepeatsUnfold(files[0].name.version, Versions(files[1..]), v);
      }
    }
  }

  lemma {:induction false} NonzeroKeeps(versions: seq<nat>, v: nat)
    requires v > 0
    ensures v in Nonzero(versions) <==> v in versions
    ensures Repeats(Nonzero(versions), v) <==> Repeats(versions, v)
  {
    if versions != [] {
      var first, rest := versions[0], versions[1..];
      NonzeroKeeps(rest, v);
      assert versions == [first] + rest;
      RepeatsUnfold(first, rest, v);
      RepeatsUnfold(first, Nonzero(rest), v);
      assert first == 0 ==> Nonzero(versions) == Nonzero(rest);
    }
  }

  lemma {:induction false} NonzeroHasNoZero(versions: seq<nat>)
    ensures 0 !in Nonzero(versions)
  {
    if versions != [] {
      NonzeroHasNoZero(versions[1..]);
    }
  }

  // A version is repeated in the chain exactly when two of its files bear it.
  lemma DuplicatesAreBorne(files: seq<File>)
    ensures HasDuplicate(Migrating(files)) <==> exists v :: v > 0 && TwoBear(files, v)
  {
    var chain, numbers := Migrating(files), Nonzero(Versions(files));
    MigratingVersions(files);
    NonzeroHasNoZero(Versions(files));
    if i, j :| 0 <= i < j < |chain| && chain[i].version == chain[j].version {
      var v := chain[i].version;
      assert numbers[i] == v && numbers[j] == v && v in numbers;
      NonzeroKeeps(Versions(files), v);
      VersionsAreBorne(files, v);
    }
    if v :| v > 0 && TwoBear(files, v) {
      NonzeroKeeps(Versions(files), v);
      VersionsAreBorne(files, v);
      var i, j :| 0 <= i < j < |numbers| && numbers[i] == v && numbers[j] == v;
      assert chain[i].version == chain[j].version;
    }
  }

  // What the loop has found so far stays in front of what it will find.
  lemma MigratingTurn(found: seq<Migration>, files: seq<File>)
    requires files != []
    ensures found + Migrating(files) ==
      var f := files[0];
      if f.name.Matching? && f.name.version != 0 then
        (found + [Migration(f.name.version, f.body)]) + Migrating(files[1..])
      else found + Migrating(files[1..])
  {
  }

  method Discover(files: seq<File>) returns (d: Discovery)
    ensures d.Refused? <==>
      HasMisnamed(files) || exists v :: v > 0 && TwoBear(files, v)
    ensures d.Chain? ==> d.chain == Migrating(files)
  {
    DuplicatesAreBorne(files);
    var found: seq<Migration> := [];
    ghost var goal := Migrating(files);
    assert files[0..] == files && [] + goal == goal;
    for i := 0 to |files|
      invariant forall k :: 0 <= k < i ==> !files[k].name.Misnamed?
      invariant found + Migrating(files[i..]) == goal
    {
      var f := files[i];
      assert files[i..][0] == f && files[i..][1..] == files[i + 1..];
      MigratingTurn(found, files[i..]);
      if f.name.ResetHelper? || f.name == Matching(0) {
        continue;
      }
      if f.name.Misnamed? {
        return Refused;
      }
      found := found + [Migration(f.name.version, f.body)];
    }
    assert found + [] == found;
    if HasDuplicate(found) {
      return Refused;
    }
    return Chain(found);
  }

  // What the executor relies on: the k-th migration of the chain is number k.
  ghost predicate InSequence(chain: seq<Migration>) {
    forall i :: 0 <= i < |chain| ==> chain[i].version == i + 1
  }

  function Nonzero(versions: seq<nat>): seq<nat> {
    if versions == [] then []
    else (if versions[0] != 0 then [versions[0]] else []) + Nonzero(versions[1..])
  }

  predicate Ascending(versions: seq<nat>) {
    forall i, j :: 0 <= i < j < |versions| ==> versions[i] <= versions[j]
  }

  lemma {:induction false} VersionsAscend(files: seq<File>)
    requires Sorted(files)
    ensures Ascending(Versions(files))
    ensures forall v :: v in Versions(files) ==> exists i :: 0 <= i < |files| && files[i].name == Matching(v)
  {
    if files != [] {
      var rest := files[1..];
      VersionsAscend(rest);
      forall v | v in Versions(files) ensures exists i :: 0 <= i < |files| && files[i].name == Matching(v) {
        if v in Versions(rest) {
          var i :| 0 <= i < |rest| && rest[i].name == Matching(v);
          assert files[i + 1].name == Matching(v);
        }
      }
      if files[0].name.Matching? {
        var first, later := files[0].name.version, Versions(rest);
        assert Versions(files) == [first] + later;
        forall i | 0 <= i < |later| ensures first <= later[i] {
          assert later[i] in later;
          var k :| 0 <= k < |rest| && rest[k].name == Matching(later[i]);
          assert files[k + 1].name == Matching(later[i]);
        }
      }
    }
  }

  lemma {:induction false} MigratingVersions(files: seq<File>)
    ensures |Migrating(files)| == |Nonzero(Versions(files))|
    ensures forall i :: 0 <= i < |Migrating(files)| ==> Migrating(files)[i].version == Nonzero(Versions(files))[i]
  {
    if files != [] {
      MigratingVersions(files[1..]);
      if files[0].name.Matching? {
        assert Versions(files)[1..] == Versions(files[1..]);
      }
    }
  }

  // Sorted versions have their zeros in front.
  lemma {:induction false} NonzeroIsATail(versions: seq<nat>) returns (k: nat)
    requires Ascending(versions)
    ensures k <= |versions| && Nonzero(versions) == versions[k..]
    ensures forall i :: 0 <= i < |versions| ==> (versions[i] == 0 <==> i < k)
  {
    if versions == [] {
      k := 0;
    } else {
      var rest := versions[1..];
      assert |versions| > 1 ==> rest[0] == versions[1] && versions[0] <= versions[1];
      k := NonzeroIsATail(rest);
      if versions[0] == 0 {
        assert rest[k..] == versions[k + 1..];
        k := k + 1;
      } else {
        assert k == 0 && [versions[0]] + rest == versions;
      }
      forall i | 0 <= i < |versions| ensures versions[i] == 0 <==> i < k {
        assert i > 0 ==> versions[i] == versions[1..][i - 1];
      }
    }
  }

  lemma {:induction false} CountsUp(w: seq<nat>, n: nat, i: nat)
    requires forall j, k :: 0 <= j < k < |w| ==> w[j] < w[k]
    requires forall v :: v in w <==> 1 <= v <= n
    requires i < |w|
    ensures w[i] == i + 1
  {
    assert w[i] in w;
    if i > 0 {
      CountsUp(w, n, i - 1);
    }
    assert i + 1 in w;
    var j :| 0 <= j < |w| && w[j] == i + 1;
  }

  // On the files the chain guard passes, the executor's chain is numbered 1, 2, 3 and so on.
  lemma GuardedChainsAreInSequence(files: seq<File>)
    requires Sorted(files) && Contiguous(Versions(files))
    ensures InSequence(Migrating(files))
  {
    var versions := Versions(files);
    VersionsAscend(files);
    MigratingVersions(files);
    var k := NonzeroIsATail(versions);
    var w := versions[k..];
    var n: nat :| IsUpTo(Numbered(versions), n);
    forall v ensures v in w <==> 1 <= v <= n {
      if v in w {
        assert v in Numbered(versions);
      }
      if 1 <= v <= n {
        assert v in Numbered(versions);
        var i :| 0 <= i < |versions| && versions[i] == v;
        assert w[i - k] == v;
      }
    }
    forall i, j | 0 <= i < j < |w| ensures w[i] < w[j] {
      assert !Repeats(versions, w[i]);
      assert versions[k + i] == w[i] && versions[k + j] == w[j];
    }
    forall i | 0 <= i < |w| ensures w[i] == i + 1 {
      CountsUp(w, n, i);
    }
  }

  // ------------------------------------------------------------------ the executor

  // schema_migrations (absent until a run creates it), the bodies executed since the last reset, and
  // whether the public schema exists that they both live in.
  datatype Database = Database(ledger: Option<map<nat, string>>, schema: seq<string>, hasSchema: bool)

  const EMPTY := Database(None, [], true)

  // Between the two statements of a reset.
  const DROPPED := Database(None, [], false)

  function Rows(db: Database): map<nat, string> {
    if db.ledger == None then map[] else db.ledger.value
  }

  // An applied version whose file vanished or changed, for a digest function `sha`; a row without a digest
  // passes for any file.
  predicate Problem(sha: string -> string, chain: seq<Migration>, rows: map<nat, string>, v: nat) {
    v in rows && !(exists i :: 0 <= i < |chain| && IsRecorded(sha, chain[i], rows, v))
  }

  predicate IsRecorded(sha: string -> string, m: Migration, rows: map<nat, string>, v: nat)
    requires v in rows
  {
    m.version == v && (rows[v] == "" || sha(m.body) == rows[v])
  }

  function PendingOf(chain: seq<Migration>, rows: map<nat, string>): seq<Migration> {
    if chain == [] then []
    else (if chain[0].version in rows then [] else [chain[0]]) + PendingOf(chain[1..], rows)
  }

  datatype Phase =
    | Resetting
    | Recreating
    | Creating
    | Reading
    | Applying(pending: seq<Migration>)
    | Succeeded
    | Failed

  datatype Runner = Runner(chain: seq<Migration>, phase: Phase)

  datatype State = State(db: Database, runners: map<nat, Runner>)

  datatype Event =
    | Launch(id: nat, chain: seq<Migration>, reset: bool)
    | DropSchema(id: nat)
    | CreateSchema(id: nat)
    | Create(id: nat)
    | Read(id: nat, objectsPresent: bool)
    | Apply(id: nat, bodyFails: bool)
    | Die(id: nat)

  predicate InPhase(s: State, id: nat, phase: Phase) {
    id in s.runners && s.runners[id].phase == phase
  }

  predicate Enabled(s: State, e: Event) {
    match e
    case Launch(id, _, _) => id !in s.runners
    case DropSchema(id) => InPhase(s, id, Resetting)
    case CreateSchema(id) => InPhase(s, id, Recreating)
    case Create(id) => InPhase(s, id, Creating)
    case Read(id, _) => InPhase(s, id, Reading)
    case Apply(id, _) => id in s.runners && s.runners[id].phase.Applying?
    case Die(id) => id in s.runners && !s.runners[id].phase.Succeeded? && !s.runners[id].phase.Failed?
  }

  function Goto(s: State, id: nat, phase: Phase): State
    requires id in s.runners
  {
    s.(runners := s.runners[id := s.runners[id].(phase := phase)])
  }

  // Where a runner goes that has these migrations left.
  function Continue(pending: seq<Migration>): Phase {
    if pending == [] then Succeeded else Applying(pending)
  }

  // What reading the ledger leads to: refusal, or the pending migrations.
  ghost function AfterRead(sha: string -> string, db: Database, chain: seq<Migration>, objectsPresent: bool): Phase {
    if db.ledger == None then Failed
    else if exists v :: Problem(sha, chain, db.ledger.value, v) then Failed
    else if db.ledger.value != map[] && !objectsPresent then Failed
    else Continue(PendingOf(chain, db.ledger.value))
  }

  // One migration's transaction: the body, then its ledger row under the primary key; all or nothing.
  predicate Commits(db: Database, m: Migration, bodyFails: bool) {
    !bodyFails && db.hasSchema && db.ledger.Some? && m.version !in db.ledger.value
  }

  function Commit(sha: string -> string, db: Database, m: Migration): Database
    requires db.ledger.Some?
  {
    Database(Some(db.ledger.value[m.version := sha(m.body)]), db.schema + [m.body], db.hasSchema)
  }

  ghost function Next(sha: string -> string, s: State, e: Event): State
    requires Enabled(s, e)
  {
    match e
    case Launch(id, chain, reset) =>
      s.(runners := s.runners[id := Runner(chain, if reset then Resetting else Creating)])
    case DropSchema(id) => Goto(s, id, Recreating).(db := DROPPED)
    case CreateSchema(id) =>
      if s.db.hasSchema then Goto(s, id, Failed) else Goto(s, id, Creating).(db := s.db.(hasSchema := true))
    case Create(id) =>
      if !s.db.hasSchema then Goto(s, id, Failed) else Goto(s, id, Reading).(db := s.db.(ledger := Some(Rows(s.db))))
    case Read(id, objectsPresent) => Goto(s, id, AfterRead(sha, s.db, s.runners[id].chain, objectsPresent))
    case Apply(id, bodyFails) =>
      var pending := s.runners[id].phase.pending;
      if pending != [] && Commits(s.db, pending[0], bodyFails) then
        Goto(s, id, Continue(pending[1..])).(db := Commit(sha, s.db, pending[0]))
      else Goto(s, id, Failed)
    case Die(id) => Goto(s, id, Failed)
  }

  // ------------------------------------------------------------------ what every run keeps

  // The ledger holds exactly 1 to j with their digests, and the schema is bodies 1 to j in order.
  ghost predicate Consistent(sha: string -> string, db: Database) {
    && (!db.hasSchema ==> db.ledger == None)
    && (db.ledger == None ==> db.schema == [])
    && (forall v :: v in Rows(db) <==> 1 <= v <= |db.schema|)
    && (forall i :: 0 <= i < |db.schema| ==> Rows(db)[i + 1] == sha(db.schema[i]))
  }

  function Bodies(chain: seq<Migration>): (bodies: seq<string>)
    ensures |bodies| == |chain|
  {
    seq(|chain|, i requires 0 <= i < |chain| => chain[i].body)
  }

  // A runner in the middle of its chain: what comes before its next migration is in the schema.
  ghost predicate OnTrack(db: Database, r: Runner) {
    && InSequence(r.chain)
    && (r.phase.Applying? ==>
          && r.phase.pending != []
          && |r.phase.pending| <= |r.chain|
          && var k := |r.chain| - |r.phase.pending|;
             && r.phase.pending == r.chain[k..]
             && Bodies(r.chain[..k]) <= db.schema)
  }

  ghost predicate AllOnTrack(db: Database, runners: map<nat, Runner>) {
    forall id :: id in runners ==> OnTrack(db, runners[id])
  }

  ghost predicate Invariant(sha: string -> string, s: State) {
    Consistent(sha, s.db) && AllOnTrack(s.db, s.runners)
  }

  // A reset is safe when no other runner is past the first migration of its chain. A runner that has
  // not read the ledger, or that ended, does not matter.
  ghost predicate SafeReset(s: State, e: Event) {
    e.DropSchema? ==> forall id :: id in s.runners && s.runners[id].phase.Applying? ==>
      s.runners[id].phase.pending == s.runners[id].chain
  }

  // Different bodies have different digests, and no digest is empty.
  ghost predicate IsDigest(sha: string -> string) {
    (forall a, b :: sha(a) == sha(b) ==> a == b) && forall a :: sha(a) != ""
  }

  ghost predicate IsRun(sha: string -> string, ss: seq<State>, es: seq<Event>) {
    && |ss| == |es| + 1
    && ss[0] == State(EMPTY, map[])
    && (forall i :: 0 <= i < |es| ==> Enabled(ss[i], es[i]) && ss[i + 1] == Next(sha, ss[i], es[i]))
    && (forall i :: 0 <= i < |es| && es[i].Launch? ==> InSequence(es[i].chain))
  }

  lemma {:induction false} PendingIsASuffix(chain: seq<Migration>, rows: map<nat, string>, j: nat, from: nat)
    requires forall i :: 0 <= i < |chain| ==> chain[i].version == from + i + 1
    requires forall v :: v in rows <==> 1 <= v <= j
    ensures PendingOf(chain, rows) == if from + |chain| <= j then [] else if j <= from then chain else chain[j - from..]
  {
    if chain != [] {
      var rest := chain[1..];
      PendingIsASuffix(rest, rows, j, from + 1);
      assert [chain[0]] + rest == chain;
      if from < j < from + |chain| {
        assert chain[j - from..] == rest[j - from - 1..];
      }
    }
  }

  lemma NoProblemAt(sha: string -> string, db: Database, chain: seq<Migration>, i: nat)
    requires IsDigest(sha) && Consistent(sha, db) && InSequence(chain) && i < |db.schema|
    requires !Problem(sha, chain, Rows(db), i + 1)
    ensures i < |chain| && chain[i].body == db.schema[i]
  {
    var rows := Rows(db);
    assert i + 1 in rows && rows[i + 1] == sha(db.schema[i]);
    var k :| 0 <= k < |chain| && IsRecorded(sha, chain[k], rows, i + 1);
  }

  // A recorded version is a problem exactly when its file is gone, or has another digest than a recorded one.
  lemma ProblemsExactly(sha: string -> string, chain: seq<Migration>, rows: map<nat, string>, v: nat)
    requires v in rows && !HasDuplicate(chain)
    ensures (forall i :: 0 <= i < |chain| ==> chain[i].version != v) ==> Problem(sha, chain, rows, v)
    ensures forall i :: 0 <= i < |chain| && chain[i].version == v ==>
      (Problem(sha, chain, rows, v) <==> rows[v] != "" && sha(chain[i].body) != rows[v])
  {
    forall i | 0 <= i < |chain| && chain[i].version == v
      ensures Problem(sha, chain, rows, v) <==> rows[v] != "" && sha(chain[i].body) != rows[v]
    {
      assert Problem(sha, chain, rows, v) <==> !IsRecorded(sha, chain[i], rows, v);
    }
  }

  // If the ledger shows no problem, what is pending is the rest of the chain after the schema's bodies.
  lemma PendingIsTheRest(sha: string -> string, db: Database, chain: seq<Migration>)
    requires IsDigest(sha) && Consistent(sha, db) && InSequence(chain)
    requires forall v :: !Problem(sha, chain, Rows(db), v)
    ensures var p := PendingOf(chain, Rows(db));
      |p| <= |chain| && p == chain[|chain| - |p|..] && db.schema == Bodies(chain[..|chain| - |p|])
  {
    var j := |db.schema|;
    PendingIsASuffix(chain, Rows(db), j, 0);
    if j > 0 {
      NoProblemAt(sha, db, chain, j - 1);
    }
    forall i | 0 <= i < j
      ensures chain[i].body == db.schema[i]
    {
      NoProblemAt(sha, db, chain, i);
    }
    assert Bodies(chain[..j]) == db.schema;
  }

  lemma ReadsWithoutProblem(sha: string -> string, db: Database, chain: seq<Migration>, objectsPresent: bool)
    requires AfterRead(sha, db, chain, objectsPresent) != Failed
    ensures AfterRead(sha, db, chain, objectsPresent) == Continue(PendingOf(chain, Rows(db)))
    ensures forall v :: !Problem(sha, chain, Rows(db), v)
  {
  }

  // A runner that reads a consistent ledger without a problem starts on track.
  lemma ReadingIsOnTrack(sha: string -> string, db: Database, chain: seq<Migration>, objectsPresent: bool)
    requires IsDigest(sha) && Consistent(sha, db) && InSequence(chain)
    ensures OnTrack(db, Runner(chain, AfterRead(sha, db, chain, objectsPresent)))
    ensures AfterRead(sha, db, chain, objectsPresent) == Succeeded ==> Bodies(chain) == db.schema
  {
    var phase := AfterRead(sha, db, chain, objectsPresent);
    if phase != Failed {
      ReadsWithoutProblem(sha, db, chain, objectsPresent);
      PendingIsTheRest(sha, db, chain);
      PendingStartsOnTrack(db, chain, PendingOf(chain, Rows(db)));
    }
  }

  lemma PendingStartsOnTrack(db: Database, chain: seq<Migration>, pending: seq<Migration>)
    requires InSequence(chain) && |pending| <= |chain| && pending == chain[|chain| - |pending|..]
    requires db.schema == Bodies(chain[..|chain| - |pending|])
    ensures OnTrack(db, Runner(chain, Continue(pending)))
    ensures Continue(pending) == Succeeded ==> Bodies(chain) == db.schema
  {
    assert chain[..|chain|] == chain;
  }

  // A commit by a runner on track appends the next body of its own chain.
  lemma CommitKeepsConsistency(sha: string -> string, db: Database, r: Runner)
    requires Consistent(sha, db) && OnTrack(db, r) && r.phase.Applying? && Commits(db, r.phase.pending[0], false)
    ensures var db' := Commit(sha, db, r.phase.pending[0]);
      && Consistent(sha, db')
      && db'.schema == Bodies(r.chain[..|db'.schema|])
      && OnTrack(db', r.(phase := Continue(r.phase.pending[1..])))
  {
    var k := |r.chain| - |r.phase.pending|;
    var m := r.phase.pending[0];
    assert m == r.chain[k] && m.version == k + 1;
    assert |Bodies(r.chain[..k])| == k <= |db.schema|;
    assert k == |db.schema|;
    assert Bodies(r.chain[..k]) == db.schema;
    var db' := Commit(sha, db, m);
    assert Bodies(r.chain[..k + 1]) == Bodies(r.chain[..k]) + [m.body];
  }

  lemma DropKeepsInvariant(sha: string -> string, s: State, id: nat)
    requires Invariant(sha, s) && Enabled(s, DropSchema(id)) && SafeReset(s, DropSchema(id))
    ensures Invariant(sha, Next(sha, s, DropSchema(id)))
  {
    var t := Next(sha, s, DropSchema(id));
    forall other | other in t.runners
      ensures OnTrack(t.db, t.runners[other])
    {
      var r := t.runners[other];
      assert OnTrack(s.db, s.runners[other]);
      assert Bodies(r.chain[..0]) == [];
      assert r.phase.Applying? ==> r == s.runners[other];
    }
  }

  // More bodies in the schema leave a runner on track.
  lemma StaysOnTrack(db: Database, db': Database, r: Runner)
    requires OnTrack(db, r) && db.schema <= db'.schema
    ensures OnTrack(db', r)
  {
  }

  // A runner put on track at a database that grew leaves all of them on track.
  lemma OneMovesOn(db: Database, runners: map<nat, Runner>, id: nat, r: Runner, db': Database)
    requires AllOnTrack(db, runners) && db.schema <= db'.schema && OnTrack(db', r)
    ensures AllOnTrack(db', runners[id := r])
  {
    forall other | other in runners
      ensures OnTrack(db', runners[other])
    {
      StaysOnTrack(db, db', runners[other]);
    }
  }

  lemma ApplyKeepsInvariant(sha: string -> string, s: State, id: nat, bodyFails: bool)
    requires Invariant(sha, s) && Enabled(s, Apply(id, bodyFails))
    ensures Invariant(sha, Next(sha, s, Apply(id, bodyFails)))
  {
    var r := s.runners[id];
    assert OnTrack(s.db, r);
    var m, rest := r.phase.pending[0], r.phase.pending[1..];
    if Commits(s.db, m, bodyFails) {
      CommitKeepsConsistency(sha, s.db, r);
      OneMovesOn(s.db, s.runners, id, r.(phase := Continue(rest)), Commit(sha, s.db, m));
    } else {
      OneMovesOn(s.db, s.runners, id, r.(phase := Failed), s.db);
    }
  }

  lemma ReadKeepsInvariant(sha: string -> string, s: State, id: nat, objectsPresent: bool)
    requires IsDigest(sha) && Invariant(sha, s) && Enabled(s, Read(id, objectsPresent))
    ensures Invariant(sha, Next(sha, s, Read(id, objectsPresent)))
  {
    assert OnTrack(s.db, s.runners[id]);
    ReadingIsOnTrack(sha, s.db, s.runners[id].chain, objectsPresent);
  }

  // The other steps execute no body and give no runner anything to apply.
  lemma OtherStepsKeepInvariant(sha: string -> string, s: State, e: Event)
    requires Invariant(sha, s) && Enabled(s, e) && !e.DropSchema? && !e.Apply? && !e.Read?
    requires e.Launch? ==> InSequence(e.chain)
    ensures Invariant(sha, Next(sha, s, e))
  {
    var t := Next(sha, s, e);
    assert t.db.schema == s.db.schema && Consistent(sha, t.db);
    forall id | id in t.runners
      ensures OnTrack(t.db, t.runners[id])
    {
      if id in s.runners {
        assert OnTrack(s.db, s.runners[id]);
      }
    }
  }

  // One step keeps the invariant, unless it is a reset under a runner that is past its first migration.
  lemma StepKeepsInvariant(sha: string -> string, s: State, e: Event)
    requires IsDigest(sha) && Invariant(sha, s) && Enabled(s, e) && SafeReset(s, e)
    requires e.Launch? ==> InSequence(e.chain)
    ensures Invariant(sha, Next(sha, s, e))
  {
    match e {
      case DropSchema(id) => DropKeepsInvariant(sha, s, id);
      case Apply(id, bodyFails) => ApplyKeepsInvariant(sha, s, id, bodyFails);
      case Read(id, objectsPresent) => ReadKeepsInvariant(sha, s, id, objectsPresent);
      case _ => OtherStepsKeepInvariant(sha, s, e);
    }
  }

  // Across any runs, crashes and concurrent runners of any guarded revisions, if resets were safe, the
  // ledger is exactly 1 to j and every unfinished runner continues where the schema stands or fails.
  lemma {:induction false} RunsKeepInvariant(sha: string -> string, ss: seq<State>, es: seq<Event>, n: nat)
    requires IsDigest(sha) && IsRun(sha, ss, es) && n <= |es|
    requires forall i :: 0 <= i < n ==> SafeReset(ss[i], es[i])
    ensures Invariant(sha, ss[n])
  {
    if n > 0 {
      RunsKeepInvariant(sha, ss, es, n - 1);
      StepKeepsInvariant(sha, ss[n - 1], es[n - 1]);
    }
  }

  // A body enters the schema only as the next one of the chain that applies it, all of whose earlier
  // bodies the schema holds in order; nothing but a reset takes bodies out.
  lemma BodiesRunOnceInOrder(sha: string -> string, ss: seq<State>, es: seq<Event>, i: nat)
    requires IsDigest(sha) && IsRun(sha, ss, es) && i < |es|
    requires forall k :: 0 <= k <= i ==> SafeReset(ss[k], es[k])
    requires ss[i + 1].db.schema != ss[i].db.schema
    ensures || (es[i].DropSchema? && ss[i + 1].db == DROPPED)
            || (es[i].Apply? && var chain := ss[i].runners[es[i].id].chain;
                 |ss[i].db.schema| < |chain|
                 && ss[i].db.schema == Bodies(chain[..|ss[i].db.schema|])
                 && ss[i + 1].db.schema == Bodies(chain[..|ss[i].db.schema| + 1]))
  {
    RunsKeepInvariant(sha, ss, es, i);
    assert ss[i + 1] == Next(sha, ss[i], es[i]);
    if es[i].Apply? {
      var r := ss[i].runners[es[i].id];
      assert OnTrack(ss[i].db, r);
      CommitKeepsConsistency(sha, ss[i].db, r);
      var db' := ss[i + 1].db;
      assert |Bodies(r.chain[..|db'.schema|])| == |db'.schema|;
      assert ss[i].db.schema == db'.schema[..|ss[i].db.schema|];
    }
  }

  // A runner comes to its success by reading that nothing is pending, or by its last commit.
  lemma SuccessAtStep(sha: string -> string, s: State, e: Event, id: nat)
    requires IsDigest(sha) && Invariant(sha, s) && Enabled(s, e)
    requires InPhase(Next(sha, s, e), id, Succeeded) && !InPhase(s, id, Succeeded)
    ensures var t := Next(sha, s, e);
      t.db.hasSchema && t.db.ledger.Some? && t.db.schema == Bodies(t.runners[id].chain)
  {
    var r := s.runners[id];
    assert OnTrack(s.db, r);
    if e.Read? {
      ReadingIsOnTrack(sha, s.db, r.chain, e.objectsPresent);
    } else {
      LastCommit(sha, s.db, r);
    }
  }

  lemma LastCommit(sha: string -> string, db: Database, r: Runner)
    requires Consistent(sha, db) && OnTrack(db, r) && r.phase.Applying? && Commits(db, r.phase.pending[0], false)
    requires Continue(r.phase.pending[1..]) == Succeeded
    ensures Commit(sha, db, r.phase.pending[0]).schema == Bodies(r.chain)
  {
    CommitKeepsConsistency(sha, db, r);
    assert |r.phase.pending| == 1;
    assert |Bodies(r.chain[..|r.chain| - 1])| == |r.chain| - 1 <= |db.schema|;
    assert r.chain[..|r.chain|] == r.chain;
  }

  // The moment a runner succeeds, the schema is exactly its revision's bodies and the ledger records
  // them, whatever crashed before or ran beside it.
  lemma SuccessReachesTheHead(sha: string -> string, ss: seq<State>, es: seq<Event>, i: nat, id: nat)
    requires IsDigest(sha) && IsRun(sha, ss, es) && i < |es|
    requires forall k :: 0 <= k <= i ==> SafeReset(ss[k], es[k])
    requires InPhase(ss[i + 1], id, Succeeded) && !InPhase(ss[i], id, Succeeded)
    ensures Consistent(sha, ss[i + 1].db) && ss[i + 1].db.hasSchema && ss[i + 1].db.ledger.Some?
    ensures ss[i + 1].db.schema == Bodies(ss[i + 1].runners[id].chain)
  {
    RunsKeepInvariant(sha, ss, es, i);
    RunsKeepInvariant(sha, ss, es, i + 1);
    assert ss[i + 1] == Next(sha, ss[i], es[i]);
    SuccessAtStep(sha, ss[i], es[i], id);
  }

  // Two histories of one revision that both came to a success stand at the same database: finishing
  // after any crashes gives what an uninterrupted run gives.
  lemma CrashesDoNotMatter(
    sha: string -> string, chain: seq<Migration>,
    ss: seq<State>, es: seq<Event>, i: nat, id: nat, ss': seq<State>, es': seq<Event>, i': nat, id': nat)
    requires IsDigest(sha) && IsRun(sha, ss, es) && i < |es| && IsRun(sha, ss', es') && i' < |es'|
    requires forall k :: 0 <= k <= i ==> SafeReset(ss[k], es[k])
    requires forall k :: 0 <= k <= i' ==> SafeReset(ss'[k], es'[k])
    requires InPhase(ss[i + 1], id, Succeeded) && !InPhase(ss[i], id, Succeeded)
    requires InPhase(ss'[i' + 1], id', Succeeded) && !InPhase(ss'[i'], id', Succeeded)
    requires ss[i + 1].runners[id].chain == ss'[i' + 1].runners[id'].chain == chain
    ensures ss[i + 1].db == ss'[i' + 1].db
  {
    SuccessReachesTheHead(sha, ss, es, i, id);
    SuccessReachesTheHead(sha, ss', es', i', id');
    var a, b := ss[i + 1].db, ss'[i' + 1].db;
    forall v | v in Rows(a) ensures v in Rows(b) && Rows(a)[v] == Rows(b)[v] {
      assert Rows(a)[v - 1 + 1] == sha(a.schema[v - 1]);
      assert Rows(b)[v - 1 + 1] == sha(b.schema[v - 1]);
    }
    assert Rows(a) == Rows(b);
  }

  // ------------------------------------------------------------------ resets beside a running chain

  ghost predicate Reaches(sha: string -> string, s: State, es: seq<Event>, t: State)
    decreases |es|
  {
    if es == [] then s == t
    else Enabled(s, es[0]) && Reaches(sha, Next(sha, s, es[0]), es[1..], t)
  }

  // An unsafe reset can break the ledger: once the resetting run has created the table anew, the other
  // runner records its next migration in it although those before were dropped.
  lemma UnsafeResetBreaksTheLedger(sha: string -> string, s: State, id: nat) returns (es: seq<Event>, t: State)
    requires Invariant(sha, s) && Enabled(s, DropSchema(id)) && !SafeReset(s, DropSchema(id))
    ensures |es| == 4 && es[0] == DropSchema(id) && Reaches(sha, s, es, t) && !Consistent(sha, t.db)
  {
    var other :|
      && other in s.runners && s.runners[other].phase.Applying?
      && s.runners[other].phase.pending != s.runners[other].chain;
    assert OnTrack(s.db, s.runners[other]);
    var m := s.runners[other].phase.pending[0];
    assert m.version > 1;
    es := [DropSchema(id), CreateSchema(id), Create(id), Apply(other, false)];
    var es1 := [CreateSchema(id), Create(id), Apply(other, false)];
    var es2, es3 := [Create(id), Apply(other, false)], [Apply(other, false)];
    assert es[1..] == es1 && es1[1..] == es2 && es2[1..] == es3 && es3[1..] == [];
    var s1 := Next(sha, s, es[0]);
    var s2 := Next(sha, s1, es1[0]);
    var s3 := Next(sha, s2, es2[0]);
    t := Next(sha, s3, es3[0]);
    assert Reaches(sha, t, es3[1..], t);
    assert Reaches(sha, s3, es3, t);
    assert Reaches(sha, s2, es2, t);
    assert Reaches(sha, s1, es1, t);
    assert m.version in Rows(t.db) && |t.db.schema| == 1;
  }

  // The situation arises: one runner has applied the first of two migrations when another resets.
  lemma UnsafeResetsAreReachable(sha: string -> string, a: string, b: string) returns (ss: seq<State>, es: seq<Event>)
    ensures IsRun(sha, ss, es) && Enabled(ss[|es|], DropSchema(1)) && !SafeReset(ss[|es|], DropSchema(1))
  {
    var chain := [Migration(1, a), Migration(2, b)];
    es := [Launch(0, chain, false), Create(0), Read(0, true), Apply(0, false), Launch(1, chain, true)];
    var s0 := State(EMPTY, map[]);
    var s1 := Next(sha, s0, es[0]);
    var s2 := Next(sha, s1, es[1]);
    assert chain[1..] == [Migration(2, b)];
    PendingIsASuffix(chain, map[], 0, 0);
    var s3 := Next(sha, s2, es[2]);
    var s4 := Next(sha, s3, es[3]);
    var s5 := Next(sha, s4, es[4]);
    ss := [s0, s1, s2, s3, s4, s5];
    assert 0 in s5.runners && s5.runners[0] == Runner(chain, Applying([Migration(2, b)]));
  }

  // ------------------------------------------------------------------ resets that stop halfway

  // A run that dies between the two statements of its reset, and a later run without a reset, which fails.
  lemma HalfResetsAreReachable(sha: string -> string, chain: seq<Migration>) returns (ss: seq<State>, es: seq<Event>)
    requires InSequence(chain)
    ensures IsRun(sha, ss, es) && (forall i :: 0 <= i < |es| ==> SafeReset(ss[i], es[i]))
    ensures es == [Launch(0, chain, true), DropSchema(0), Die(0), Launch(1, chain, false), Create(1)]
    ensures ss[|es|].db == DROPPED && InPhase(ss[|es|], 1, Failed)
  {
    es := [Launch(0, chain, true), DropSchema(0), Die(0), Launch(1, chain, false), Create(1)];
    var s0 := State(EMPTY, map[]);
    var s1 := Next(sha, s0, es[0]);
    var s2 := Next(sha, s1, es[1]);
    var s3 := Next(sha, s2, es[2]);
    var s4 := Next(sha, s3, es[3]);
    var s5 := Next(sha, s4, es[4]);
    ss := [s0, s1, s2, s3, s4, s5];
  }

  // Until some reset creates the schema again it stays missing, and no run succeeds.
  lemma {:induction false} HalfResetsPersist(
    sha: string -> string, ss: seq<State>, es: seq<Event>, i: nat, n: nat, id: nat)
    requires IsRun(sha, ss, es) && i <= n <= |es| && ss[i].db == DROPPED
    requires forall k :: i <= k < n ==> !es[k].CreateSchema?
    ensures ss[n].db == DROPPED && (InPhase(ss[n], id, Succeeded) ==> InPhase(ss[i], id, Succeeded))
    decreases n - i
  {
    if i < n {
      HalfResetsPersist(sha, ss, es, i, n - 1, id);
      assert ss[n] == Next(sha, ss[n - 1], es[n - 1]);
    }
  }

  // ------------------------------------------------------------------ one run, step by step

  // How a host name folds to lower case, and which addresses the address library calls loopback.
  datatype Hosts = Hosts(lower: string -> string, loopbackAddress: string -> bool)

  method IsLoopback(hosts: Hosts, host: string) returns (loopback: bool)
    ensures loopback <==> host == "" || hosts.lower(host) == "localhost" || hosts.loopbackAddress(host)
  {
    if host == "" || hosts.lower(host) == "localhost" {
      return true;
    }
    return hosts.loopbackAddress(host);
  }

  // A host that is named, is not the local one by name, and has no loopback address.
  ghost predicate IsRemote(hosts: Hosts, host: string) {
    host != "" && hosts.lower(host) != "localhost" && !hosts.loopbackAddress(host)
  }

  // The database holds the beginning of the chain, as it does after any number of its migrations.
  ghost predicate HoldsPrefix(db: Database, chain: seq<Migration>) {
    |db.schema| <= |chain| && db.schema == Bodies(chain[..|db.schema|])
  }

  ghost predicate CanFinish(db: Database, chain: seq<Migration>, objectsPresent: bool) {
    db.hasSchema && HoldsPrefix(db, chain) && (objectsPresent || db.schema == [])
  }

  // On the beginning of the chain no applied file is a problem.
  lemma PrefixHasNoProblem(sha: string -> string, db: Database, chain: seq<Migration>, v: nat)
    requires Consistent(sha, db) && InSequence(chain) && HoldsPrefix(db, chain)
    ensures !Problem(sha, chain, Rows(db), v)
  {
    if v in Rows(db) {
      assert db.schema[v - 1] == chain[..|db.schema|][v - 1].body == chain[v - 1].body;
      assert IsRecorded(sha, chain[v - 1], Rows(db), v);
    }
  }

  // A runner reads on exactly from the beginning of its own chain, with that chain's tables in place.
  lemma AfterReadExactly(sha: string -> string, db: Database, chain: seq<Migration>, objectsPresent: bool)
    requires IsDigest(sha) && Consistent(sha, db) && InSequence(chain)
    ensures AfterRead(sha, db, chain, objectsPresent) != Failed <==>
      db.ledger.Some? && CanFinish(db, chain, objectsPresent)
    ensures AfterRead(sha, db, chain, objectsPresent) != Failed ==>
      AfterRead(sha, db, chain, objectsPresent) == Continue(chain[|db.schema|..])
  {
    EmptyLedger(sha, db);
    if HoldsPrefix(db, chain) {
      forall v ensures !Problem(sha, chain, Rows(db), v) {
        PrefixHasNoProblem(sha, db, chain, v);
      }
    }
    if forall v :: !Problem(sha, chain, Rows(db), v) {
      PendingIsTheRest(sha, db, chain);
      var k := |chain| - |PendingOf(chain, Rows(db))|;
      assert |Bodies(chain[..k])| == k;
    }
  }

  // Applying what is left, without a failure, succeeds.
  lemma {:induction false} AppliesToTheEnd(sha: string -> string, s: State, id: nat) returns (es: seq<Event>, t: State)
    requires id in s.runners && s.runners[id].phase.Applying? && Consistent(sha, s.db) && s.db.ledger.Some?
    requires InSequence(s.runners[id].chain) && HoldsPrefix(s.db, s.runners[id].chain)
    requires s.runners[id].phase.pending == s.runners[id].chain[|s.db.schema|..] != []
    ensures Reaches(sha, s, es, t) && forall e :: e in es ==> e == Apply(id, false)
    ensures InPhase(t, id, Succeeded) && t.db.schema == Bodies(s.runners[id].chain)
    decreases |s.runners[id].chain| - |s.db.schema|
  {
    var r, k := s.runners[id], |s.db.schema|;
    var m := r.chain[k];
    assert r.phase.pending[0] == m && r.phase.pending[1..] == r.chain[k + 1..];
    assert m.version == k + 1 && k + 1 !in Rows(s.db);
    assert OnTrack(s.db, r);
    CommitKeepsConsistency(sha, s.db, r);
    var s1 := Next(sha, s, Apply(id, false));
    assert s1.db == Commit(sha, s.db, m) && |s1.db.schema| == k + 1;
    if k + 1 == |r.chain| {
      assert r.chain[..|r.chain|] == r.chain;
      es, t := [Apply(id, false)], s1;
      assert Reaches(sha, s1, es[1..], t);
    } else {
      var rest: seq<Event>;
      rest, t := AppliesToTheEnd(sha, s1, id);
      es := [Apply(id, false)] + rest;
      assert es[1..] == rest;
    }
  }

  // A run without a failure, alone with the database, succeeds exactly when it can finish: it creates the
  // ledger, reads it and applies the rest.
  lemma LoneRunsEnd(sha: string -> string, s: State, id: nat, objectsPresent: bool) returns (es: seq<Event>, t: State)
    requires IsDigest(sha) && Consistent(sha, s.db) && InPhase(s, id, Creating) && InSequence(s.runners[id].chain)
    ensures Reaches(sha, s, es, t)
    ensures forall e :: e in es ==> e == Create(id) || e == Read(id, objectsPresent) || e == Apply(id, false)
    ensures var chain := s.runners[id].chain;
      if CanFinish(s.db, chain, objectsPresent) then InPhase(t, id, Succeeded) && t.db.schema == Bodies(chain)
      else InPhase(t, id, Failed) && t.db.schema == s.db.schema
  {
    var chain := s.runners[id].chain;
    var s1 := Next(sha, s, Create(id));
    es, t := [Create(id)], s1;
    assert Reaches(sha, s1, [], s1) && es[1..] == [];
    if s.db.hasSchema {
      assert Consistent(sha, s1.db) && s1.db.schema == s.db.schema;
      AfterReadExactly(sha, s1.db, chain, objectsPresent);
      var s2 := Next(sha, s1, Read(id, objectsPresent));
      var rest: seq<Event> := [];
      t := s2;
      assert Reaches(sha, s2, rest, t);
      if s2.runners[id].phase.Applying? {
        rest, t := AppliesToTheEnd(sha, s2, id);
      } else if CanFinish(s.db, chain, objectsPresent) {
        assert chain[|s.db.schema|..] == [] && chain[..|s.db.schema|] == chain;
      }
      var es1 := [Read(id, objectsPresent)] + rest;
      assert es1[1..] == rest;
      assert Reaches(sha, s1, es1, t);
      es := [Create(id)] + es1;
      assert es[1..] == es1;
    }
  }

  // After a reset of a database nobody else uses, it can.
  lemma ResetsMakeRoom(sha: string -> string, s: State, id: nat, objectsPresent: bool) returns (t: State)
    requires InPhase(s, id, Resetting) && InSequence(s.runners[id].chain)
    ensures Reaches(sha, s, [DropSchema(id), CreateSchema(id)], t)
    ensures InPhase(t, id, Creating) && t.runners[id].chain == s.runners[id].chain
    ensures Consistent(sha, t.db) && CanFinish(t.db, t.runners[id].chain, objectsPresent)
  {
    var es := [DropSchema(id), CreateSchema(id)];
    var s1 := Next(sha, s, es[0]);
    t := Next(sha, s1, es[1]);
    assert es[1..] == [CreateSchema(id)] && es[1..][1..] == [];
    assert Reaches(sha, t, es[1..][1..], t);
    assert Reaches(sha, s1, es[1..], t);
  }

  lemma EmptyLedger(sha: string -> string, db: Database)
    requires Consistent(sha, db)
    ensures Rows(db) == map[] <==> db.schema == []
  {
    if db.schema != [] {
      assert 1 in Rows(db);
    }
  }

  class Executor {
    var db: Database

    constructor (db: Database)
      ensures this.db == db
    {
      this.db := db;
    }

    // `dies` says that the process ends between the two statements.
    method ResetPublicSchema(hosts: Hosts, host: string, dbname: string, confirm: string, dies: bool)
      returns (ok: bool)
      modifies this
      ensures host != "" && hosts.lower(host) != "localhost" && !hosts.loopbackAddress(host) ==> !ok && db == old(db)
      ensures confirm != dbname ==> !ok && db == old(db)
      ensures (host == "" || hosts.lower(host) == "localhost" || hosts.loopbackAddress(host)) && confirm == dbname ==>
        ok == !dies && db == Database(None, [], !dies)
    {
      var loopback := IsLoopback(hosts, host);
      if !loopback {
        return false;
      }
      if confirm != dbname {
        return false;
      }
      db := Database(None, [], false);
      if dies {
        return false;
      }
      db := db.(hasSchema := true);
      return true;
    }

    method ReadApplied() returns (applied: Option<map<nat, string>>)
      modifies this
      ensures applied == if old(db).hasSchema then Some(Rows(old(db))) else None
      ensures db == if old(db).hasSchema then old(db).(ledger := applied) else old(db)
    {
      if !db.hasSchema {
        return None;
      }
      if db.ledger == None {
        db := db.(ledger := Some(map[]));
      }
      return db.ledger;
    }

    method CheckAppliedFiles(sha: string -> string, chain: seq<Migration>, applied: map<nat, string>)
      returns (problems: set<nat>)
      requires !HasDuplicate(chain)
      ensures forall v :: v in problems <==> Problem(sha, chain, applied, v)
    {
      problems := {};
      var byVersion: map<nat, Migration> := map[];
      for i := 0 to |chain|
        invariant forall v :: v in byVersion ==> exists k :: 0 <= k < i && chain[k].version == v
        invariant forall k :: 0 <= k < i ==> chain[k].version in byVersion && byVersion[chain[k].version] == chain[k]
      {
        byVersion := byVersion[chain[i].version := chain[i]];
      }
      var todo := applied.Keys;
      while todo != {}
        invariant todo <= applied.Keys
        invariant forall v :: v in problems <==> v !in todo && Problem(sha, chain, applied, v)
        decreases |todo|
      {
        var v :| v in todo;
        todo := todo - {v};
        if v !in byVersion {
          problems := problems + {v};
          continue;
        }
        var k :| 0 <= k < |chain| && chain[k].version == v;
        assert byVersion[v] == chain[k];
        assert Problem(sha, chain, applied, v) <==> !IsRecorded(sha, chain[k], applied, v);
        if applied[v] != "" && sha(byVersion[v].body) != applied[v] {
          problems := problems + {v};
        }
      }
    }

    method ApplyOne(sha: string -> string, m: Migration, bodyFails: bool) returns (ok: bool)
      modifies this
      ensures ok <==> Commits(old(db), m, bodyFails)
      ensures db == if ok then Commit(sha, old(db), m) else old(db)
    {
      if bodyFails || !db.hasSchema || db.ledger == None {
        return false;
      }
      var schema := db.schema + [m.body];
      if m.version in db.ledger.value {
        return false;
      }
      db := Database(Some(db.ledger.value[m.version := sha(m.body)]), schema, db.hasSchema);
      return true;
    }

    // The apply loop of main, for a runner alone with the database: transaction k fails, or the process
    // dies before it, when `fails(k)`.
    method ApplyPending(sha: string -> string, ghost chain: seq<Migration>, pending: seq<Migration>, fails: nat -> bool)
      returns (ok: bool)
      requires Consistent(sha, db) && db.ledger.Some? && InSequence(chain)
      requires |pending| <= |chain| && pending == chain[|chain| - |pending|..]
      requires db.schema == Bodies(chain[..|chain| - |pending|])
      modifies this
      ensures Consistent(sha, db) && old(db.schema) <= db.schema
      ensures ok ==> db.schema == Bodies(chain)
      ensures (forall k :: !fails(k)) ==> ok
    {
      var i := 0;
      ghost var k := |chain| - |pending|;
      while i < |pending|
        invariant i <= |pending| && old(db.schema) <= db.schema && Consistent(sha, db) && db.ledger.Some?
        invariant db.schema == Bodies(chain[..k + i])
      {
        ghost var r := Runner(chain, Applying(chain[k + i..]));
        assert pending[i] == chain[k + i] && |Bodies(chain[..k + i])| == |db.schema|;
        assert pending[i].version !in Rows(db);
        ghost var was := db;
        ok := ApplyOne(sha, pending[i], fails(i));
        if !ok {
          return false;
        }
        CommitKeepsConsistency(sha, was, r);
        i := i + 1;
      }
      assert chain[..|chain|] == chain;
      return true;
    }

    // A run from its reading of the ledger on.
    method Upgrade(sha: string -> string, chain: seq<Migration>, objectsPresent: bool, fails: nat -> bool)
      returns (code: int)
      requires IsDigest(sha) && InSequence(chain) && Consistent(sha, db)
      modifies this
      ensures Consistent(sha, db) && old(db.schema) <= db.schema
      ensures code == 0 || code == 1
      ensures code == 0 ==> db.schema == Bodies(chain) && CanFinish(old(db), chain, objectsPresent)
      ensures (forall k :: !fails(k)) && CanFinish(old(db), chain, objectsPresent) ==> code == 0
    {
      var rows := ReadApplied();
      if rows == None {
        return 1;
      }
      var applied := rows.value;
      var problems := CheckAppliedFiles(sha, chain, applied);
      assert HoldsPrefix(db, chain) ==> problems == {} by {
        if HoldsPrefix(db, chain) {
          forall v ensures v !in problems {
            PrefixHasNoProblem(sha, db, chain, v);
          }
        }
      }
      EmptyLedger(sha, db);
      if problems != {} || (applied != map[] && !objectsPresent) {
        return 1;
      }
      assert forall v :: v !in problems && !Problem(sha, chain, applied, v);
      PendingIsTheRest(sha, db, chain);
      var pending := PendingOf(chain, applied);
      assert |Bodies(chain[..|chain| - |pending|])| == |chain| - |pending|;
      if pending == [] {
        assert chain[..|chain|] == chain;
        return 0;
      }
      var done := ApplyPending(sha, chain, pending, fails);
      return if done then 0 else 1;
    }

    // A whole run on guarded files that nobody else is migrating.
    method Run(sha: string -> string, files: seq<File>, reset: bool, hosts: Hosts, host: string, dbname: string,
               confirm: string, dies: bool, objectsPresent: bool, fails: nat -> bool) returns (code: int)
      requires IsDigest(sha) && Sorted(files) && Contiguous(Versions(files)) && Consistent(sha, db)
      modifies this
      ensures Consistent(sha, db)
      ensures !reset ==> old(db.schema) <= db.schema
      ensures code == 0 || code == 1
      ensures code == 0 ==> db.schema == Bodies(Migrating(files)) && !HasMisnamed(files)
      ensures code == 0 ==>
        if reset then !IsRemote(hosts, host) && confirm == dbname && !dies
        else confirm == "" && CanFinish(old(db), Migrating(files), objectsPresent)
      ensures !HasMisnamed(files) && (forall k :: !fails(k)) ==>
        (reset && !IsRemote(hosts, host) && confirm == dbname && !dies ==> code == 0)
      ensures !HasMisnamed(files) && (forall k :: !fails(k)) ==>
        (!reset && confirm == "" && CanFinish(old(db), Migrating(files), objectsPresent) ==> code == 0)
      ensures reset && (IsRemote(hosts, host) || confirm != dbname) ==> code == 1 && db == old(db)
    {
      GuardedChainsAreInSequence(files);
      DuplicatesAreBorne(files);
      var d := Discover(files);
      if d.Refused? {
        return 1;
      }
      if reset {
        var ok := ResetPublicSchema(hosts, host, dbname, confirm, dies);
        if !ok {
          return 1;
        }
        assert HoldsPrefix(db, d.chain);
      } else if confirm != "" {
        return 1;
      }
      code := Upgrade(sha, d.chain, objectsPresent, fails);
    }
  }
}
