/** Durable session checkpoints: upserts that may arrive out of order, gated by `supersedes`. */
module Checkpoint {
  import opened Wrappers
  import opened Text
  import opened Delivery
  import Iso8601

  datatype DeliverySnapshot = DeliverySnapshot(
    identity: DeliveryIdentity, indexResolution: string, tokenCount: nat, turnDelivered: nat,
    contentHash: string, compressionTier: string, compressedSummary: Option<string>)

  datatype Metrics = Metrics(
    totalDeliveries: nat, tokensDelivered: nat, totalEvictions: nat, tokensEvicted: nat,
    totalCompressions: nat, tokensCompressed: nat, deltaUpdates: nat, dedupHits: nat,
    tokensDeduplicated: nat, bytesDeduplicated: nat)

  datatype SessionState = SessionState(
    version: nat, revision: nat, delivered: seq<DeliverySnapshot>, trajectory: seq<DeliveryIdentity>,
    dropped: seq<DeliveryIdentity>, currentTurn: nat, metrics: Metrics)

  datatype Snapshot = Snapshot(
    sessionId: string, tenantId: string, corpusId: Option<string>, openedAt: string, lastSeenAt: string,
    budgetUsed: int, coherenceScore: real, state: SessionState)

  /** The primary key `(tenant_id, session_id)`. */
  datatype Key = Key(tenantId: string, sessionId: string)

  function KeyOf(s: Snapshot): Key {
    Key(s.tenantId, s.sessionId)
  }

  /** Whether `incoming` may replace `current`; strings compare byte-wise. */
  predicate Supersedes(incoming: Snapshot, current: Snapshot) {
    var (a, b) := (incoming.state.revision, current.state.revision);
    if a == 0 && b == 0 then !Before(incoming.lastSeenAt, current.lastSeenAt)
    else if a == 0 then false
    else if b == 0 then true
    else a >= b
  }

  /** `supersedes` is a total preorder. */
  lemma SupersedesPreorder(a: Snapshot, b: Snapshot, c: Snapshot)
    ensures Supersedes(a, a)
    ensures Supersedes(a, b) || Supersedes(b, a)
    ensures Supersedes(a, b) && Supersedes(b, c) ==> Supersedes(a, c)
  {
    BeforeIrreflexive(a.lastSeenAt);
    if Before(a.lastSeenAt, b.lastSeenAt) && Before(b.lastSeenAt, a.lastSeenAt) {
      BeforeTransitive(a.lastSeenAt, b.lastSeenAt, a.lastSeenAt);
    }
    if Before(a.lastSeenAt, c.lastSeenAt) {
      BeforeTotal(a.lastSeenAt, b.lastSeenAt);
      BeforeTotal(b.lastSeenAt, c.lastSeenAt);
      if Before(b.lastSeenAt, a.lastSeenAt) {
        BeforeTransitive(b.lastSeenAt, a.lastSeenAt, c.lastSeenAt);
      }
    }
  }

  // ---------------------------------------------------------------- the row list

  function Load(rows: seq<Snapshot>, key: Key): Option<Snapshot> {
    if rows == [] then None
    else if KeyOf(rows[0]) == key then Some(rows[0])
    else Load(rows[1..], key)
  }

  /** Replace the first row of the key if the snapshot supersedes it; append when there is none. */
  function SaveRows(rows: seq<Snapshot>, s: Snapshot): seq<Snapshot> {
    if rows == [] then [s]
    else if KeyOf(rows[0]) == KeyOf(s) then (if Supersedes(s, rows[0]) then [s] + rows[1..] else rows)
    else [rows[0]] + SaveRows(rows[1..], s)
  }

  function TouchRows(rows: seq<Snapshot>, key: Key, now: string): seq<Snapshot> {
    if rows == [] then []
    else if KeyOf(rows[0]) == key then [rows[0].(lastSeenAt := now)] + rows[1..]
    else [rows[0]] + TouchRows(rows[1..], key, now)
  }

  function DeleteRows(rows: seq<Snapshot>, key: Key): seq<Snapshot> {
    if rows == [] then []
    else if KeyOf(rows[0]) == key then DeleteRows(rows[1..], key)
    else [rows[0]] + DeleteRows(rows[1..], key)
  }

  ghost predicate OneRowPerKey(rows: seq<Snapshot>) {
    forall i, j :: 0 <= i < j < |rows| ==> KeyOf(rows[i]) != KeyOf(rows[j])
  }

  /** What a save leaves under its key. */
  function Upserted(current: Option<Snapshot>, s: Snapshot): Snapshot {
    if current.Some? && !Supersedes(s, current.value) then current.value else s
  }

  /** Refinement: on lookups a save is a gated map update. */
  lemma {:induction false} LoadAfterSave(rows: seq<Snapshot>, s: Snapshot, key: Key)
    ensures Load(SaveRows(rows, s), key)
         == if key == KeyOf(s) then Some(Upserted(Load(rows, key), s)) else Load(rows, key)
  {
    if rows != [] && KeyOf(rows[0]) != KeyOf(s) {
      LoadAfterSave(rows[1..], s, key);
    }
  }

  lemma {:induction false} LoadAfterTouch(rows: seq<Snapshot>, touched: Key, now: string, key: Key)
    ensures Load(TouchRows(rows, touched, now), key)
         == if key == touched && Load(rows, key).Some?
            then Some(Load(rows, key).value.(lastSeenAt := now)) else Load(rows, key)
  {
    if rows != [] && KeyOf(rows[0]) != touched {
      LoadAfterTouch(rows[1..], touched, now, key);
    }
  }

  lemma {:induction false} LoadAfterDelete(rows: seq<Snapshot>, deleted: Key, key: Key)
    ensures Load(DeleteRows(rows, deleted), key) == if key == deleted then None else Load(rows, key)
  {
    if rows != [] { LoadAfterDelete(rows[1..], deleted, key); }
  }

  lemma {:induction false} LoadKey(rows: seq<Snapshot>, key: Key)
    ensures Load(rows, key).Some? ==> KeyOf(Load(rows, key).value) == key
    ensures Load(rows, key).None? <==> forall i :: 0 <= i < |rows| ==> KeyOf(rows[i]) != key
  {
    if rows != [] {
      LoadKey(rows[1..], key);
      assert forall i :: 0 < i < |rows| ==> rows[i] == rows[1..][i - 1];
    }
  }

  lemma {:induction false} SaveKeys(rows: seq<Snapshot>, s: Snapshot)
    ensures |SaveRows(rows, s)| == |rows| + if Load(rows, KeyOf(s)).None? then 1 else 0
    ensures forall i :: 0 <= i < |rows| ==> KeyOf(SaveRows(rows, s)[i]) == KeyOf(rows[i])
    ensures Load(rows, KeyOf(s)).None? ==> SaveRows(rows, s) == rows + [s]
  {
    if rows != [] && KeyOf(rows[0]) != KeyOf(s) {
      SaveKeys(rows[1..], s);
    }
  }

  /** Saving never creates a second row for a key. */
  lemma SaveKeepsOneRow(rows: seq<Snapshot>, s: Snapshot)
    requires OneRowPerKey(rows)
    ensures OneRowPerKey(SaveRows(rows, s))
  {
    SaveKeys(rows, s);
    LoadKey(rows, KeyOf(s));
  }

  lemma {:induction false} TouchKeys(rows: seq<Snapshot>, key: Key, now: string)
    ensures |TouchRows(rows, key, now)| == |rows|
    ensures forall i :: 0 <= i < |rows| ==> KeyOf(TouchRows(rows, key, now)[i]) == KeyOf(rows[i])
  {
    if rows != [] && KeyOf(rows[0]) != key {
      TouchKeys(rows[1..], key, now);
    }
  }

  lemma {:induction false} DeleteKeepsOneRow(rows: seq<Snapshot>, key: Key)
    requires OneRowPerKey(rows)
    ensures OneRowPerKey(DeleteRows(rows, key))
    ensures forall row :: row in DeleteRows(rows, key) ==> row in rows
  {
    if rows != [] {
      var rest := DeleteRows(rows[1..], key);
      DeleteKeepsOneRow(rows[1..], key);
      forall i | 0 <= i < |rest| ensures KeyOf(rest[i]) != KeyOf(rows[0]) {
        assert rest[i] in rows[1..];
        var k :| 0 <= k < |rows[1..]| && rows[1..][k] == rest[i];
        assert rows[k + 1] == rest[i];
      }
    }
  }

  // ---------------------------------------------------------------- runs

  datatype Op = Save(snapshot: Snapshot) | Touch(key: Key, now: string) | Delete(key: Key)

  function Apply(rows: seq<Snapshot>, op: Op): seq<Snapshot> {
    match op
    case Save(s) => SaveRows(rows, s)
    case Touch(key, now) => TouchRows(rows, key, now)
    case Delete(key) => DeleteRows(rows, key)
  }

  /** The rows left by a run of operations on an empty store. */
  function Run(ops: seq<Op>): seq<Snapshot> {
    if ops == [] then [] else Apply(Run(ops[..|ops| - 1]), ops[|ops| - 1])
  }

  function Stored(ops: seq<Op>, key: Key): Option<Snapshot> {
    Load(Run(ops), key)
  }

  predicate NeverDeletes(ops: seq<Op>, key: Key) {
    Delete(key) !in ops
  }

  predicate SavedIn(ops: seq<Op>, key: Key, s: Snapshot) {
    Save(s) in ops && KeyOf(s) == key
  }

  /** Equal except for the keep-alive timestamp. */
  predicate SameContent(a: Snapshot, b: Snapshot) {
    a.(lastSeenAt := "") == b.(lastSeenAt := "")
  }

  /** Rows belong to a tenant and a session: operations on any other tenant or session leave a row as it is, and a
      row that is found is the tenant's and the session's own. */
  lemma OthersAreSeparate(ops: seq<Op>, op: Op, key: Key)
    requires op.Save? ==> op.snapshot.tenantId != key.tenantId || op.snapshot.sessionId != key.sessionId
    requires !op.Save? ==> op.key.tenantId != key.tenantId || op.key.sessionId != key.sessionId
    ensures Stored(ops + [op], key) == Stored(ops, key)
    ensures Stored(ops, key).Some? ==>
              Stored(ops, key).value.tenantId == key.tenantId && Stored(ops, key).value.sessionId == key.sessionId
  {
    StoredStep(ops, op, key);
    LoadKey(Run(ops), key);
  }

  /** A first save is found under its tenant and session. */
  lemma SavedIsFound(ops: seq<Op>, s: Snapshot)
    ensures Stored(ops + [Save(s)], Key(s.tenantId, s.sessionId)).Some?
    ensures Stored(ops, Key(s.tenantId, s.sessionId)).None? ==>
              Stored(ops + [Save(s)], Key(s.tenantId, s.sessionId)) == Some(s)
  {
    StoredStep(ops, Save(s), Key(s.tenantId, s.sessionId));
  }

  /** One operation, seen through the row of one key. */
  lemma StoredStep(ops: seq<Op>, op: Op, key: Key)
    ensures Stored(ops + [op], key) ==
      match op
      case Save(s) => if key == KeyOf(s) then Some(Upserted(Stored(ops, key), s)) else Stored(ops, key)
      case Touch(k, now) =>
        if key == k && Stored(ops, key).Some? then Some(Stored(ops, key).value.(lastSeenAt := now))
        else Stored(ops, key)
      case Delete(k) => if key == k then None else Stored(ops, key)
  {
    assert (ops + [op])[..|ops|] == ops;
    match op
    case Save(s) => LoadAfterSave(Run(ops), s, key);
    case Touch(k, now) => LoadAfterTouch(Run(ops), k, now, key);
    case Delete(k) => LoadAfterDelete(Run(ops), k, key);
  }

  /** The stored revision never falls while the key is not deleted. */
  lemma {:induction false} RevisionNeverFalls(ops: seq<Op>, more: seq<Op>, key: Key)
    requires NeverDeletes(more, key) && Stored(ops, key).Some?
    ensures Stored(ops + more, key).Some?
    ensures Stored(ops + more, key).value.state.revision >= Stored(ops, key).value.state.revision
  {
    if more == [] {
      assert ops + more == ops;
    } else {
      var init, op := more[..|more| - 1], more[|more| - 1];
      RevisionNeverFalls(ops, init, key);
      assert ops + more == (ops + init) + [op];
      StoredStep(ops + init, op, key);
    }
  }

  /** Saves older than the stored revision, and any touches, change nothing but the timestamp:
      what that revision dropped stays dropped. */
  lemma {:induction false} StaleSavesChangeNothing(ops: seq<Op>, more: seq<Op>, key: Key)
    requires NeverDeletes(more, key) && Stored(ops, key).Some?
    requires forall s :: SavedIn(more, key, s) ==> s.state.revision < Stored(ops, key).value.state.revision
    ensures Stored(ops + more, key).Some?
    ensures SameContent(Stored(ops + more, key).value, Stored(ops, key).value)
  {
    if more == [] {
      assert ops + more == ops;
    } else {
      var init, op := more[..|more| - 1], more[|more| - 1];
      assert more == init + [op];
      forall s | SavedIn(init, key, s)
        ensures s.state.revision < Stored(ops, key).value.state.revision
      {
        assert SavedIn(more, key, s);
      }
      StaleSavesChangeNothing(ops, init, key);
      assert ops + more == (ops + init) + [op];
      StoredStep(ops + init, op, key);
      if op.Save? && KeyOf(op.snapshot) == key {
        assert SavedIn(more, key, op.snapshot);
      }
    }
  }

  // ---------------------------------------------------------------- deletes

  /** The operations after the last delete of the key. */
  function SinceDelete(ops: seq<Op>, key: Key): seq<Op> {
    if ops == [] then [] else
      var last := |ops| - 1;
      if ops[last] == Delete(key) then [] else SinceDelete(ops[..last], key) + [ops[last]]
  }

  /** A delete forgets everything: what follows it is a run on an empty store, as far as the key goes. */
  lemma {:induction false} DeleteForgetsRevision(ops: seq<Op>, more: seq<Op>, key: Key)
    ensures Stored(ops + [Delete(key)] + more, key) == Stored(more, key)
  {
    if more == [] {
      assert ops + [Delete(key)] + more == ops + [Delete(key)];
      StoredStep(ops, Delete(key), key);
    } else {
      var init, op := more[..|more| - 1], more[|more| - 1];
      DeleteForgetsRevision(ops, init, key);
      assert ops + [Delete(key)] + more == (ops + [Delete(key)] + init) + [op];
      assert more == init + [op];
      StoredStep(ops + [Delete(key)] + init, op, key);
      StoredStep(init, op, key);
    }
  }

  lemma {:induction false} StoredSinceDelete(ops: seq<Op>, key: Key)
    ensures NeverDeletes(SinceDelete(ops, key), key)
    ensures Stored(ops, key) == Stored(SinceDelete(ops, key), key)
  {
    if ops != [] {
      var init, op := ops[..|ops| - 1], ops[|ops| - 1];
      assert ops == init + [op];
      StoredSinceDelete(init, key);
      StoredStep(init, op, key);
      StoredStep(SinceDelete(init, key), op, key);
    }
  }

  /** Saved under the key since its last delete. */
  predicate Live(ops: seq<Op>, key: Key, s: Snapshot) {
    SavedIn(SinceDelete(ops, key), key, s)
  }

  // ---------------------------------------------------------------- the highest revision

  lemma {:induction false} HighestWithoutDelete(ops: seq<Op>, key: Key)
    requires NeverDeletes(ops, key)
    ensures Stored(ops, key).None? <==> forall s :: !SavedIn(ops, key, s)
    ensures Stored(ops, key).Some? ==>
              && (exists s :: SavedIn(ops, key, s) && SameContent(s, Stored(ops, key).value))
              && (forall s :: SavedIn(ops, key, s) ==> s.state.revision <= Stored(ops, key).value.state.revision)
  {
    if ops != [] {
      var init, op := ops[..|ops| - 1], ops[|ops| - 1];
      assert ops == init + [op];
      HighestWithoutDelete(init, key);
      StoredStep(init, op, key);
      assert forall s :: SavedIn(ops, key, s) <==> SavedIn(init, key, s) || (op == Save(s) && KeyOf(s) == key);
    }
  }

  /** In every run, deletes included, the row of a key is, up to the timestamp, a snapshot of the highest
      revision saved since its last delete; there is none exactly when nothing was. */
  lemma HighestRevisionWins(ops: seq<Op>, key: Key)
    ensures Stored(ops, key).None? <==> forall s :: !Live(ops, key, s)
    ensures Stored(ops, key).Some? ==>
              && (exists s :: Live(ops, key, s) && SameContent(s, Stored(ops, key).value))
              && (forall s :: Live(ops, key, s) ==> s.state.revision <= Stored(ops, key).value.state.revision)
  {
    StoredSinceDelete(ops, key);
    HighestWithoutDelete(SinceDelete(ops, key), key);
    var since := SinceDelete(ops, key);
    assert forall s :: Live(ops, key, s) <==> SavedIn(since, key, s);
    if Stored(ops, key).Some? {
      var s :| SavedIn(since, key, s) && SameContent(s, Stored(ops, key).value);
      assert Live(ops, key, s);
    }
  }

  /** A live save that no live save outranks. */
  ghost predicate Top(ops: seq<Op>, key: Key, s: Snapshot) {
    Live(ops, key, s) && forall t :: Live(ops, key, t) ==> t.state.revision <= s.state.revision
  }

  /** The live saves of the highest revision carry equal content, as distinct revisions guarantee. */
  ghost predicate TopAgrees(ops: seq<Op>, key: Key) {
    forall s, t :: Top(ops, key, s) && Top(ops, key, t) ==> SameContent(s, t)
  }

  /** The two runs have delivered the same saves since the last delete, in any order and number. */
  ghost predicate SameSaves(ops: seq<Op>, other: seq<Op>, key: Key) {
    forall s :: Live(ops, key, s) <==> Live(other, key, s)
  }

  /** Both runs leave no row, or rows equal up to the timestamp. */
  ghost predicate SameRow(ops: seq<Op>, other: seq<Op>, key: Key) {
    match (Stored(ops, key), Stored(other, key))
    case (Some(a), Some(b)) => SameContent(a, b)
    case (None, None) => true
    case _ => false
  }

  /** Runs that deliver the same saves, in any order, with any repetitions and any touches between them,
      leave the same row up to its timestamp. */
  lemma DeliveryOrderIrrelevant(ops: seq<Op>, other: seq<Op>, key: Key)
    requires SameSaves(ops, other, key) && TopAgrees(ops, key)
    ensures SameRow(ops, other, key)
  {
    HighestRevisionWins(ops, key);
    HighestRevisionWins(other, key);
    if Stored(ops, key).Some? {
      assert exists s :: Live(other, key, s);
      var s :| Live(ops, key, s) && SameContent(s, Stored(ops, key).value);
      var t :| Live(other, key, t) && SameContent(t, Stored(other, key).value);
      assert s.state == Stored(ops, key).value.state && t.state == Stored(other, key).value.state;
      assert Top(ops, key, s) && Top(ops, key, t);
    }
  }

  /** Delivering a top save once more after a touch makes it the row, and delivers nothing new. */
  lemma Redelivered(ops: seq<Op>, key: Key, s: Snapshot)
    requires Top(ops, key, s)
    ensures var again := ops + [Touch(key, "")] + [Save(s)];
            SameSaves(ops, again, key) && Stored(again, key) == Some(s)
  {
    var touched := ops + [Touch(key, "")];
    var again := touched + [Save(s)];
    forall t ensures Live(ops, key, t) <==> Live(again, key, t) {
      LiveStep(ops, Touch(key, ""), key, t);
      LiveStep(touched, Save(s), key, t);
    }
    TopRevision(ops, key, s);
    StoredStep(ops, Touch(key, ""), key);
    StoredStep(touched, Save(s), key);
  }

  /** The row has the revision of the top saves. */
  lemma TopRevision(ops: seq<Op>, key: Key, s: Snapshot)
    requires Top(ops, key, s)
    ensures Stored(ops, key).Some? && Stored(ops, key).value.state.revision == s.state.revision
  {
    HighestRevisionWins(ops, key);
    var row :| Live(ops, key, row) && SameContent(row, Stored(ops, key).value);
    assert row.state == Stored(ops, key).value.state;
  }

  /** Main theorem, with its exact condition: the order of delivery does not matter if and only if the live
      saves of the highest revision agree. */
  lemma DeliveryOrderExact(ops: seq<Op>, key: Key)
    ensures (forall other :: SameSaves(ops, other, key) ==> SameRow(ops, other, key)) <==> TopAgrees(ops, key)
  {
    if TopAgrees(ops, key) {
      forall other | SameSaves(ops, other, key) ensures SameRow(ops, other, key) {
        DeliveryOrderIrrelevant(ops, other, key);
      }
    }
    if forall other :: SameSaves(ops, other, key) ==> SameRow(ops, other, key) {
      forall s, t | Top(ops, key, s) && Top(ops, key, t) ensures SameContent(s, t) {
        Redelivered(ops, key, s);
        Redelivered(ops, key, t);
        assert SameRow(ops, ops + [Touch(key, "")] + [Save(s)], key);
        assert SameRow(ops, ops + [Touch(key, "")] + [Save(t)], key);
      }
    }
  }

  // ---------------------------------------------------------------- real timestamps

  /** Every touch of the key carries this timestamp. */
  predicate TouchesWith(ops: seq<Op>, key: Key, stamp: string) {
    forall op :: op in ops && op.Touch? && op.key == key ==> op.now == stamp
  }

  /** The saves of the key alone. */
  function SavesOf(ops: seq<Op>, key: Key): seq<Op> {
    if ops == [] then [] else
      var op := ops[|ops| - 1];
      SavesOf(ops[..|ops| - 1], key) + if op.Save? && KeyOf(op.snapshot) == key then [op] else []
  }

  lemma {:induction false} SavesOfShape(ops: seq<Op>, key: Key)
    ensures forall op :: op in SavesOf(ops, key) ==> op.Save? && KeyOf(op.snapshot) == key
    ensures forall s :: SavedIn(SavesOf(ops, key), key, s) <==> SavedIn(ops, key, s)
  {
    if ops != [] {
      var init, op := ops[..|ops| - 1], ops[|ops| - 1];
      SavesOfShape(init, key);
      assert ops == init + [op];
      forall s ensures SavedIn(SavesOf(ops, key), key, s) <==> SavedIn(ops, key, s) {
        assert SavedIn(SavesOf(init, key), key, s) <==> SavedIn(init, key, s);
        assert Save(s) in ops <==> Save(s) in init || op == Save(s);
      }
    }
  }

  lemma {:induction false} SinceNoDelete(ops: seq<Op>, key: Key)
    requires NeverDeletes(ops, key)
    ensures SinceDelete(ops, key) == ops
  {
    if ops != [] {
      assert ops[|ops| - 1] in ops;
      SinceNoDelete(ops[..|ops| - 1], key);
    }
  }

  predicate EarlierLegacy(op: Op, stamp: string) {
    op.Save? && op.snapshot.state.revision == 0 && Before(op.snapshot.lastSeenAt, stamp)
  }

  /** A row touched later than the legacy saves still to come stays. */
  lemma {:induction false} LateTouchHolds(ops: seq<Op>, saves: seq<Op>, key: Key)
    requires Stored(ops, key).Some? && Stored(ops, key).value.state.revision == 0
    requires forall op :: op in saves ==> EarlierLegacy(op, Stored(ops, key).value.lastSeenAt)
    ensures Stored(ops + saves, key) == Stored(ops, key)
  {
    if saves == [] {
      assert ops + saves == ops;
    } else {
      var init, op := saves[..|saves| - 1], saves[|saves| - 1];
      assert op in saves;
      LateTouchHolds(ops, init, key);
      assert ops + saves == (ops + init) + [op];
      StoredStep(ops + init, op, key);
    }
  }

  /** Runs without a delete that make the same saves have the same live saves. */
  lemma SameSavesAs(ops: seq<Op>, run: seq<Op>, key: Key)
    requires NeverDeletes(run, key)
    requires forall t :: SavedIn(run, key, t) <==> Live(ops, key, t)
    ensures SameSaves(ops, run, key)
  {
    SinceNoDelete(run, key);
  }

  /** The saves and then the top save once more. */
  lemma FavouredRevision(ops: seq<Op>, key: Key, s: Snapshot) returns (run: seq<Op>)
    requires Top(ops, key, s) && s.state.revision > 0
    ensures SameSaves(ops, run, key) && (forall op :: op in run ==> op.Save?) && Stored(run, key) == Some(s)
  {
    var saves := SavesOf(SinceDelete(ops, key), key);
    SavesOfShape(SinceDelete(ops, key), key);
    SameSavesAs(ops, saves, key);
    HighestRevisionWins(saves, key);
    StoredStep(saves, Save(s), key);
    run := saves + [Save(s)];
    forall t ensures SavedIn(run, key, t) <==> Live(ops, key, t) {
      assert Save(t) in run <==> Save(t) in saves || t == s;
    }
    SameSavesAs(ops, run, key);
  }

  /** A legacy save, a touch, and then all the saves. */
  lemma FavouredLegacy(ops: seq<Op>, key: Key, s: Snapshot, stamp: string) returns (run: seq<Op>)
    requires Top(ops, key, s) && s.state.revision == 0
    requires forall t :: Live(ops, key, t) && t.state.revision == 0 ==> Before(t.lastSeenAt, stamp)
    ensures SameSaves(ops, run, key) && TouchesWith(run, key, stamp)
    ensures Stored(run, key) == Some(s.(lastSeenAt := stamp))
  {
    var saves := SavesOf(SinceDelete(ops, key), key);
    SavesOfShape(SinceDelete(ops, key), key);
    var start := [Save(s)] + [Touch(key, stamp)];
    SavedThenTouched(key, s, stamp);
    forall op | op in saves ensures EarlierLegacy(op, stamp) {
      assert SavedIn(saves, key, op.snapshot) && Live(ops, key, op.snapshot);
    }
    LateTouchHolds(start, saves, key);
    run := start + saves;
    forall t ensures SavedIn(run, key, t) <==> Live(ops, key, t) {
      assert Save(t) in run <==> Save(t) in saves || t == s;
    }
    SameSavesAs(ops, run, key);
  }

  lemma SavedThenTouched(key: Key, s: Snapshot, stamp: string)
    requires KeyOf(s) == key
    ensures Stored([Save(s)] + [Touch(key, stamp)], key) == Some(s.(lastSeenAt := stamp))
  {
    assert [] + [Save(s)] == [Save(s)];
    StoredStep([], Save(s), key);
    StoredStep([Save(s)], Touch(key, stamp), key);
  }

  /** A run of the same saves, touched at most at `stamp`, that leaves the top save s. */
  lemma Favoured(ops: seq<Op>, key: Key, s: Snapshot, stamp: string) returns (run: seq<Op>)
    requires Top(ops, key, s)
    requires forall t :: Live(ops, key, t) && t.state.revision == 0 ==> Before(t.lastSeenAt, stamp)
    ensures SameSaves(ops, run, key) && TouchesWith(run, key, stamp)
    ensures Stored(run, key).Some? && SameContent(Stored(run, key).value, s)
  {
    if s.state.revision > 0 {
      run := FavouredRevision(ops, key, s);
    } else {
      run := FavouredLegacy(ops, key, s, stamp);
    }
  }

  /** The condition stays exact when touches carry one timestamp that a store would write, later than the legacy
      saves: even then the order of delivery shows unless the saves of the highest revision agree. */
  lemma StampedOrderExact(ops: seq<Op>, key: Key, stamp: string)
    requires forall t :: Live(ops, key, t) && t.state.revision == 0 ==> Before(t.lastSeenAt, stamp)
    ensures (forall other :: SameSaves(ops, other, key) && TouchesWith(other, key, stamp) ==> SameRow(ops, other, key))
            <==> TopAgrees(ops, key)
  {
    if TopAgrees(ops, key) {
      forall other | SameSaves(ops, other, key) ensures SameRow(ops, other, key) {
        DeliveryOrderIrrelevant(ops, other, key);
      }
    }
    if forall other :: SameSaves(ops, other, key) && TouchesWith(other, key, stamp) ==> SameRow(ops, other, key) {
      forall s, t | Top(ops, key, s) && Top(ops, key, t) ensures SameContent(s, t) {
        var first := Favoured(ops, key, s, stamp);
        var second := Favoured(ops, key, t, stamp);
        assert SameRow(ops, first, key) && SameRow(ops, second, key);
      }
    }
  }

  // ---------------------------------------------------------------- saves alone

  predicate Untouched(ops: seq<Op>, key: Key) {
    forall op :: op in SinceDelete(ops, key) ==> !(op.Touch? && op.key == key)
  }

  /** A live save that supersedes every live save. */
  ghost predicate Best(ops: seq<Op>, key: Key, s: Snapshot) {
    Live(ops, key, s) && forall t :: Live(ops, key, t) ==> Supersedes(s, t)
  }

  lemma LiveStep(init: seq<Op>, op: Op, key: Key, s: Snapshot)
    requires op != Delete(key)
    ensures Live(init + [op], key, s) <==> Live(init, key, s) || (op == Save(s) && KeyOf(s) == key)
    ensures SinceDelete(init + [op], key) == SinceDelete(init, key) + [op]
  {
    assert (init + [op])[..|init|] == init;
  }

  /** Without touches the row is a live save that supersedes them all. */
  lemma {:induction false} BestIsStored(ops: seq<Op>, key: Key)
    requires Untouched(ops, key)
    ensures Stored(ops, key).None? <==> forall s :: !Live(ops, key, s)
    ensures Stored(ops, key).Some? ==> Best(ops, key, Stored(ops, key).value)
  {
    HighestRevisionWins(ops, key);
    if ops != [] && ops[|ops| - 1] != Delete(key) {
      var init, op := ops[..|ops| - 1], ops[|ops| - 1];
      assert ops == init + [op];
      forall s ensures Live(ops, key, s) <==> Live(init, key, s) || (op == Save(s) && KeyOf(s) == key) {
        LiveStep(init, op, key, s);
      }
      assert SinceDelete(ops, key) == SinceDelete(init, key) + [op];
      assert op in SinceDelete(ops, key);
      BestIsStored(init, key);
      StoredStep(init, op, key);
      if op.Save? && KeyOf(op.snapshot) == key {
        SavedBest(init, op.snapshot, ops, key);
      }
    }
  }

  lemma SavedBest(init: seq<Op>, s: Snapshot, ops: seq<Op>, key: Key)
    requires KeyOf(s) == key
    requires forall t :: Live(ops, key, t) <==> Live(init, key, t) || t == s
    requires Stored(init, key).None? <==> forall t :: !Live(init, key, t)
    requires Stored(init, key).Some? ==> Best(init, key, Stored(init, key).value)
    ensures Best(ops, key, Upserted(Stored(init, key), s))
  {
    var row := Upserted(Stored(init, key), s);
    forall t | Live(ops, key, t) ensures Supersedes(row, t) {
      SupersedesPreorder(row, s, t);
      if Stored(init, key).Some? {
        SupersedesPreorder(s, Stored(init, key).value, t);
      }
    }
  }

  /** The live saves that supersede all of them are one. */
  ghost predicate BestIsUnique(ops: seq<Op>, key: Key) {
    forall s, t :: Best(ops, key, s) && Best(ops, key, t) ==> s == t
  }

  lemma UniqueBestStays(ops: seq<Op>, other: seq<Op>, key: Key)
    requires Untouched(ops, key) && Untouched(other, key) && SameSaves(ops, other, key) && BestIsUnique(ops, key)
    ensures Stored(other, key) == Stored(ops, key)
  {
    BestIsStored(ops, key);
    BestIsStored(other, key);
    if Stored(ops, key).Some? {
      assert Live(other, key, Stored(ops, key).value);
      assert Best(ops, key, Stored(other, key).value);
    }
  }

  /** Exact condition for saves alone: the order of delivery does not show, timestamp included, if and only if the
      saves that supersede all of them are equal. */
  lemma SavesOrderExact(ops: seq<Op>, key: Key)
    requires Untouched(ops, key)
    ensures (forall other :: SameSaves(ops, other, key) && Untouched(other, key) ==>
               Stored(other, key) == Stored(ops, key))
            <==> BestIsUnique(ops, key)
  {
    if BestIsUnique(ops, key) {
      forall other | SameSaves(ops, other, key) && Untouched(other, key)
        ensures Stored(other, key) == Stored(ops, key)
      {
        UniqueBestStays(ops, other, key);
      }
    } else {
      var s, t :| Best(ops, key, s) && Best(ops, key, t) && s != t;
      SavedAgain(ops, key, s);
      SavedAgain(ops, key, t);
    }
  }

  lemma SavedAgain(ops: seq<Op>, key: Key, s: Snapshot)
    requires Untouched(ops, key) && Best(ops, key, s)
    ensures var again := ops + [Save(s)];
            SameSaves(ops, again, key) && Untouched(again, key) && Stored(again, key) == Some(s)
  {
    forall t ensures Live(ops + [Save(s)], key, t) <==> Live(ops, key, t) {
      LiveStep(ops, Save(s), key, t);
    }
    LiveStep(ops, Save(s), key, s);
    BestIsStored(ops, key);
    StoredStep(ops, Save(s), key);
  }

  /** Of two saves with one nonzero revision the later delivery stays. */
  lemma TiesKeepDeliveryOrder(s: Snapshot, t: Snapshot)
    requires KeyOf(s) == KeyOf(t) && s.state.revision == t.state.revision > 0
    ensures Stored([Save(s), Save(t)], KeyOf(s)) == Some(t)
    ensures Stored([Save(t), Save(s)], KeyOf(s)) == Some(s)
  {
    SavedTwice(s, t);
    SavedTwice(t, s);
  }

  // ---------------------------------------------------------------- legacy rows and real time

  /** Legacy checkpoints stamped by the formatter are ordered by real time through year 9999. */
  lemma LegacyOrderIsTimeOrder(a: Snapshot, b: Snapshot, atA: Iso8601.u64, atB: Iso8601.u64)
    requires a.state.revision == 0 && b.state.revision == 0
    requires a.lastSeenAt == Iso8601.Format(atA) && b.lastSeenAt == Iso8601.Format(atB)
    requires atA as int < Iso8601.YEAR_10000 && atB as int < Iso8601.YEAR_10000
    ensures Supersedes(a, b) <==> atA >= atB
  {
    Iso8601.StringOrderIsTimeOrder(atA, atB);
  }

  function SaveAll(saves: seq<Snapshot>): seq<Op> {
    if saves == [] then [] else SaveAll(saves[..|saves| - 1]) + [Save(saves[|saves| - 1])]
  }

  lemma {:induction false} SaveAllSaves(saves: seq<Snapshot>, key: Key)
    requires forall i :: 0 <= i < |saves| ==> KeyOf(saves[i]) == key
    ensures SinceDelete(SaveAll(saves), key) == SaveAll(saves) && Untouched(SaveAll(saves), key)
    ensures forall s :: SavedIn(SaveAll(saves), key, s) <==> s in saves
    ensures forall op :: op in SaveAll(saves) ==> op.Save?
  {
    if saves != [] {
      var n := |saves| - 1;
      SaveAllSaves(saves[..n], key);
      assert saves == saves[..n] + [saves[n]];
      assert SaveAll(saves)[..|SaveAll(saves)| - 1] == SaveAll(saves[..n]);
    }
  }

  predicate StampedLegacy(s: Snapshot, at: Iso8601.u64, key: Key) {
    KeyOf(s) == key && s.state.revision == 0 && at as int < Iso8601.YEAR_10000 && s.lastSeenAt == Iso8601.Format(at)
  }

  /** Legacy saves of one key, each stamped by the formatter with its time, leave one of the latest. */
  lemma LegacyLatestWins(saves: seq<Snapshot>, times: seq<Iso8601.u64>, key: Key) returns (at: nat)
    requires |saves| == |times| > 0
    requires forall i :: 0 <= i < |saves| ==> StampedLegacy(saves[i], times[i], key)
    ensures at < |saves| && Stored(SaveAll(saves), key) == Some(saves[at])
    ensures forall i :: 0 <= i < |times| ==> times[i] <= times[at]
  {
    var ops := SaveAll(saves);
    forall i | 0 <= i < |saves| ensures KeyOf(saves[i]) == key {
      assert StampedLegacy(saves[i], times[i], key);
    }
    SaveAllSaves(saves, key);
    assert Live(ops, key, saves[0]);
    BestIsStored(ops, key);
    assert Stored(ops, key).value in saves;
    at :| 0 <= at < |saves| && saves[at] == Stored(ops, key).value;
    forall i | 0 <= i < |times| ensures times[i] <= times[at] {
      assert Live(ops, key, saves[i]);
      assert StampedLegacy(saves[i], times[i], key) && StampedLegacy(saves[at], times[at], key);
      LegacyOrderIsTimeOrder(saves[at], saves[i], times[at], times[i]);
    }
  }

  /** Touches make legacy delivery order show with real timestamps: a touch between two saves keeps the older one,
      which the newer one would have replaced. */
  lemma TouchKeepsOlderSave(s: Snapshot, t: Snapshot, key: Key, stamp: string,
                            a: Iso8601.u64, b: Iso8601.u64, now: Iso8601.u64)
    requires StampedLegacy(s, a, key) && StampedLegacy(t, b, key)
    requires StampedLegacy(s.(lastSeenAt := stamp), now, key) && a < b < now
    ensures Stored([Save(s), Save(t)], key) == Some(t)
    ensures Stored([Save(s), Touch(key, stamp), Save(t)], key) == Some(s.(lastSeenAt := stamp))
  {
    LegacyOrderIsTimeOrder(t, s, b, a);
    LegacyOrderIsTimeOrder(t, s.(lastSeenAt := stamp), b, now);
    SavedTwice(s, t);
    TouchedBetween(s, t, stamp);
  }

  lemma TouchedBetween(s: Snapshot, t: Snapshot, stamp: string)
    requires KeyOf(t) == KeyOf(s) && !Supersedes(t, s.(lastSeenAt := stamp))
    ensures Stored([Save(s), Touch(KeyOf(s), stamp), Save(t)], KeyOf(s)) == Some(s.(lastSeenAt := stamp))
  {
    var key := KeyOf(s);
    SavedThenTouched(key, s, stamp);
    StoredStep([Save(s)] + [Touch(key, stamp)], Save(t), key);
    assert [Save(s), Touch(key, stamp), Save(t)] == [Save(s)] + [Touch(key, stamp)] + [Save(t)];
  }

  lemma SavedTwice(s: Snapshot, t: Snapshot)
    requires KeyOf(t) == KeyOf(s) && Supersedes(t, s)
    ensures Stored([Save(s), Save(t)], KeyOf(s)) == Some(t)
  {
    assert [Save(s), Save(t)] == ([] + [Save(s)]) + [Save(t)];
    StoredStep([], Save(s), KeyOf(s));
    StoredStep([] + [Save(s)], Save(t), KeyOf(s));
  }

  // ---------------------------------------------------------------- the reference store

  class Storage {
    var rows: seq<Snapshot>
    /** Every operation made on this store, oldest first. */
    ghost var ops: seq<Op>

    ghost predicate Valid()
      reads this
    {
      OneRowPerKey(rows) && rows == Run(ops)
    }

    constructor ()
      ensures Valid() && rows == [] && ops == []
    {
      rows, ops := [], [];
    }

    method Find(key: Key) returns (at: nat)
      ensures at <= |rows| && forall i :: 0 <= i < at ==> KeyOf(rows[i]) != key
      ensures at < |rows| ==> KeyOf(rows[at]) == key
    {
      at := 0;
      while at < |rows| && KeyOf(rows[at]) != key
        invariant at <= |rows| && forall i :: 0 <= i < at ==> KeyOf(rows[i]) != key
      {
        at := at + 1;
      }
    }

    method Save(snapshot: Snapshot)
      requires Valid()
      modifies this
      ensures Valid() && ops == old(ops) + [Op.Save(snapshot)]
      ensures rows == old(SaveRows(rows, snapshot))
      ensures Load(rows, KeyOf(snapshot)) == Some(Upserted(old(Load(rows, KeyOf(snapshot))), snapshot))
    {
      SaveKeepsOneRow(rows, snapshot);
      LoadAfterSave(rows, snapshot, KeyOf(snapshot));
      var at := Find(KeyOf(snapshot));
      SaveAt(rows, snapshot, at);
      if at < |rows| {
        if Supersedes(snapshot, rows[at]) {
          rows := rows[at := snapshot];
        }
      } else {
        rows := rows + [snapshot];
      }
      ops := ops + [Op.Save(snapshot)];
      assert ops[..|ops| - 1] == old(ops);
    }

    method Fetch(key: Key) returns (found: Option<Snapshot>)
      requires Valid()
      ensures found == Load(rows, key) == Stored(ops, key)
    {
      var at := Find(key);
      LoadAt(rows, key, at);
      found := if at < |rows| then Some(rows[at]) else None;
    }

    method Touch(key: Key, now: string)
      requires Valid()
      modifies this
      ensures Valid() && ops == old(ops) + [Op.Touch(key, now)]
      ensures rows == old(TouchRows(rows, key, now))
    {
      TouchKeys(rows, key, now);
      var at := Find(key);
      TouchAt(rows, key, now, at);
      if at < |rows| {
        rows := rows[at := rows[at].(lastSeenAt := now)];
      }
      ops := ops + [Op.Touch(key, now)];
      assert ops[..|ops| - 1] == old(ops);
    }

    method Remove(key: Key)
      requires Valid()
      modifies this
      ensures Valid() && ops == old(ops) + [Op.Delete(key)]
      ensures rows == old(DeleteRows(rows, key))
    {
      DeleteKeepsOneRow(rows, key);
      rows := DeleteRows(rows, key);
      ops := ops + [Op.Delete(key)];
      assert ops[..|ops| - 1] == old(ops);
    }
  }

  lemma {:induction false} SaveAt(rows: seq<Snapshot>, s: Snapshot, at: nat)
    requires at <= |rows| && forall i :: 0 <= i < at ==> KeyOf(rows[i]) != KeyOf(s)
    requires at < |rows| ==> KeyOf(rows[at]) == KeyOf(s)
    ensures SaveRows(rows, s) == if at == |rows| then rows + [s]
                                 else if Supersedes(s, rows[at]) then rows[at := s] else rows
  {
    if at > 0 {
      var rest := rows[1..];
      assert forall i :: 0 <= i < at - 1 ==> rest[i] == rows[i + 1];
      SaveAt(rest, s, at - 1);
      assert rows == [rows[0]] + rest;
      assert at < |rows| ==> rest[at - 1] == rows[at] && rows[at := s] == [rows[0]] + rest[at - 1 := s];
    }
  }

  lemma {:induction false} TouchAt(rows: seq<Snapshot>, key: Key, now: string, at: nat)
    requires at <= |rows| && forall i :: 0 <= i < at ==> KeyOf(rows[i]) != key
    requires at < |rows| ==> KeyOf(rows[at]) == key
    ensures TouchRows(rows, key, now) == if at == |rows| then rows else rows[at := rows[at].(lastSeenAt := now)]
  {
    if at > 0 {
      TouchAt(rows[1..], key, now, at - 1);
    }
  }

  lemma {:induction false} LoadAt(rows: seq<Snapshot>, key: Key, at: nat)
    requires at <= |rows| && forall i :: 0 <= i < at ==> KeyOf(rows[i]) != key
    requires at < |rows| ==> KeyOf(rows[at]) == key
    ensures Load(rows, key) == if at == |rows| then None else Some(rows[at])
  {
    if at > 0 {
      LoadAt(rows[1..], key, at - 1);
    }
  }
}
