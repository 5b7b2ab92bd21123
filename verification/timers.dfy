/**
 * The timer entity and the pure list operations the client applies to its
 * ordered timer store: replace-by-id (`Array.prototype.map`), remove-by-id
 * (`Array.prototype.filter`) and the search for a fresh id.
 */
module Timers {

  /** `minutes` is the empty string until the user commits a number. */
  datatype Minutes = Unset | Count(n: int)

  /** `endTime` is null, or an ISO-8601 timestamp carried as opaque text. */
  datatype EndTime = NoEnd | At(stamp: string)

  datatype Timer = Timer(id: int, minutes: Minutes, timeLeft: int, isRunning: bool, endTime: EndTime)

  /** The set of ids present in the store (`new Set(timers.map(t => t.id))`). */
  function Ids(ts: seq<Timer>): set<int> {
    set i | 0 <= i < |ts| :: ts[i].id
  }

  /** The store invariant: no two entries share an id. */
  predicate UniqueIds(ts: seq<Timer>) {
    forall i, j :: 0 <= i < j < |ts| ==> ts[i].id != ts[j].id
  }

  /** `a` can be obtained from `b` by deleting entries; the order of what is left is kept. */
  ghost predicate IsSubsequence(a: seq<Timer>, b: seq<Timer>)
    decreases |b|
  {
    a == [] || (b != [] && ((a[0] == b[0] && IsSubsequence(a[1..], b[1..])) || IsSubsequence(a, b[1..])))
  }

  lemma IdsOfCons(t: Timer, ts: seq<Timer>)
    ensures Ids([t] + ts) == {t.id} + Ids(ts)
  {
    var s := [t] + ts;
    assert s[0] == t;
    forall x | x in Ids(s) ensures x in {t.id} + Ids(ts) {
      var i :| 0 <= i < |s| && s[i].id == x;
      if i > 0 { assert ts[i - 1] == s[i]; }
    }
    forall x | x in Ids(ts) ensures x in Ids(s) {
      var i :| 0 <= i < |ts| && ts[i].id == x;
      assert s[i + 1] == ts[i];
    }
  }

  lemma IdsOfSnoc(ts: seq<Timer>, t: Timer)
    ensures Ids(ts + [t]) == Ids(ts) + {t.id}
  {
    var s := ts + [t];
    assert s[|ts|] == t;
    forall x | x in Ids(s) ensures x in Ids(ts) + {t.id} {
      var i :| 0 <= i < |s| && s[i].id == x;
      if i < |ts| { assert ts[i] == s[i]; }
    }
    forall x | x in Ids(ts) ensures x in Ids(s) {
      var i :| 0 <= i < |ts| && ts[i].id == x;
      assert s[i] == ts[i];
    }
  }

  /**
   * The `timer-updated` arm: `prev.map(timer => timer.id === t.id ? t : timer)`.
   * Length and order are kept; every entry carrying the incoming id becomes the
   * incoming timer, every other entry is left as it was.
   */
  function UpdateById(ts: seq<Timer>, t: Timer): (r: seq<Timer>)
    ensures |r| == |ts|
    ensures forall i :: 0 <= i < |ts| ==> r[i] == (if ts[i].id == t.id then t else ts[i])
  {
    if ts == [] then []
    else [if ts[0].id == t.id then t else ts[0]] + UpdateById(ts[1..], t)
  }

  /** An update whose id is not in the store leaves the store unchanged. */
  lemma UpdateAbsentIsNoOp(ts: seq<Timer>, t: Timer)
    requires t.id !in Ids(ts)
    ensures UpdateById(ts, t) == ts
  {
    var r := UpdateById(ts, t);
    forall i | 0 <= i < |ts| ensures r[i] == ts[i] {
      assert ts[i].id in Ids(ts);
    }
  }

  /** An update replaces entries by id, so the set of ids and the store invariant are kept. */
  lemma UpdateKeepsIds(ts: seq<Timer>, t: Timer)
    ensures Ids(UpdateById(ts, t)) == Ids(ts)
    ensures UniqueIds(ts) ==> UniqueIds(UpdateById(ts, t))
  {
    var r := UpdateById(ts, t);
    forall x | x in Ids(r) ensures x in Ids(ts) {
      var i :| 0 <= i < |r| && r[i].id == x;
      assert ts[i].id == x;
    }
    forall x | x in Ids(ts) ensures x in Ids(r) {
      var i :| 0 <= i < |ts| && ts[i].id == x;
      assert r[i].id == x;
    }
  }

  /**
   * The `timer-deleted` arm and the optimistic local delete:
   * `prev.filter(timer => timer.id !== id)`. No entry with that id remains,
   * the survivors keep their relative order, and every other entry survives
   * exactly as often as it occurred.
   */
  function RemoveById(ts: seq<Timer>, id: int): (r: seq<Timer>)
    ensures |r| <= |ts|
    ensures id !in Ids(r)
    ensures Ids(r) == Ids(ts) - {id}
    ensures IsSubsequence(r, ts)
    ensures forall t :: multiset(r)[t] == if t.id == id then 0 else multiset(ts)[t]
  {
    if ts == [] then []
    else
      var rest := RemoveById(ts[1..], id);
      assert ts == [ts[0]] + ts[1..];
      RemoveStep(ts[0], ts[1..], rest, id);
      if ts[0].id != id then [ts[0]] + rest else rest
  }

  /** One step of the filter: what holds of the filtered tail holds after the head is kept or dropped. */
  lemma RemoveStep(t: Timer, tail: seq<Timer>, rest: seq<Timer>, id: int)
    requires |rest| <= |tail| && Ids(rest) == Ids(tail) - {id} && IsSubsequence(rest, tail)
    requires forall u :: multiset(rest)[u] == if u.id == id then 0 else multiset(tail)[u]
    ensures var ts, r := [t] + tail, if t.id != id then [t] + rest else rest;
      && |r| <= |ts| && id !in Ids(r) && Ids(r) == Ids(ts) - {id} && IsSubsequence(r, ts)
      && forall u :: multiset(r)[u] == if u.id == id then 0 else multiset(ts)[u]
  {
    var ts := [t] + tail;
    assert ts[1..] == tail;
    IdsOfCons(t, tail);
    assert multiset(ts) == multiset{t} + multiset(tail);
    if t.id != id {
      var r := [t] + rest;
      IdsOfCons(t, rest);
      assert r[1..] == rest;
      assert multiset(r) == multiset{t} + multiset(rest);
    }
  }

  /** Removing an id that is not in the store changes nothing. */
  lemma {:induction false} RemoveAbsentIsNoOp(ts: seq<Timer>, id: int)
    requires id !in Ids(ts)
    ensures RemoveById(ts, id) == ts
  {
    if ts != [] {
      IdsOfCons(ts[0], ts[1..]);
      assert ts == [ts[0]] + ts[1..];
      RemoveAbsentIsNoOp(ts[1..], id);
    }
  }

  /**
   * Removing twice is removing once: the optimistic local delete followed by
   * the server's own `timer-deleted` for the same id leaves the same store.
   */
  lemma RemoveIsIdempotent(ts: seq<Timer>, id: int)
    ensures RemoveById(RemoveById(ts, id), id) == RemoveById(ts, id)
  {
    RemoveAbsentIsNoOp(RemoveById(ts, id), id);
  }

  /** Removing entries cannot create a duplicate id. */
  lemma {:induction false} RemoveKeepsUnique(ts: seq<Timer>, id: int)
    requires UniqueIds(ts)
    ensures UniqueIds(RemoveById(ts, id))
  {
    if ts != [] {
      var rest := RemoveById(ts[1..], id);
      RemoveKeepsUnique(ts[1..], id);
      if ts[0].id != id {
        IdsOfCons(ts[0], ts[1..]);
        var r := [ts[0]] + rest;
        forall j | 0 < j < |r| ensures r[0].id != r[j].id {
          assert r[j] == rest[j - 1];
          assert r[j].id in Ids(rest);
          var k :| 0 < k < |ts| && ts[k].id == r[j].id by {
            assert r[j].id in Ids(ts[1..]);
            var m :| 0 <= m < |ts[1..]| && ts[1..][m].id == r[j].id;
            assert ts[m + 1] == ts[1..][m];
          }
        }
      }
    }
  }

  /** Appending keeps ids unique exactly when the appended id is new. */
  lemma AppendUniqueIff(ts: seq<Timer>, t: Timer)
    ensures UniqueIds(ts + [t]) <==> UniqueIds(ts) && t.id !in Ids(ts)
  {
    var s := ts + [t];
    if UniqueIds(s) {
      forall i, j | 0 <= i < j < |ts| ensures ts[i].id != ts[j].id {
        assert s[i] == ts[i] && s[j] == ts[j];
      }
      forall i | 0 <= i < |ts| ensures ts[i].id != t.id {
        assert s[i] == ts[i] && s[|ts|] == t;
      }
    }
    if UniqueIds(ts) && t.id !in Ids(ts) {
      forall i, j | 0 <= i < j < |s| ensures s[i].id != s[j].id {
        if j == |ts| {
          assert s[i] == ts[i];
          assert ts[i].id in Ids(ts);
        } else {
          assert s[i] == ts[i] && s[j] == ts[j];
        }
      }
    }
  }

  /** `n` is the smallest positive integer that is not already an id. */
  predicate IsLeastFreeId(ids: set<int>, n: int) {
    1 <= n && n !in ids && forall k :: 1 <= k < n ==> k in ids
  }

  /** At most one integer is the least free id of a set. */
  lemma LeastFreeIdIsUnique(ids: set<int>, a: int, b: int)
    requires IsLeastFreeId(ids, a) && IsLeastFreeId(ids, b)
    ensures a == b
  {
  }

  /** With ids {1, 3} the next id is 2. */
  lemma LeastFreeIdOfOneThree(n: int)
    requires IsLeastFreeId({1, 3}, n)
    ensures n == 2
  {
    LeastFreeIdIsUnique({1, 3}, n, 2);
  }

  /** An upper bound of the ids (at least 0); used only to bound the id search. */
  ghost function MaxId(ts: seq<Timer>): (m: int)
    ensures 0 <= m
    ensures forall x :: x in Ids(ts) ==> x <= m
  {
    if ts == [] then 0
    else
      var rest := MaxId(ts[1..]);
      IdsOfCons(ts[0], ts[1..]);
      assert ts == [ts[0]] + ts[1..];
      if ts[0].id > rest then ts[0].id else rest
  }

  /**
   * The id search of `addNewRow`: start at 1 and step up while the candidate
   * is already an id. The result is the least positive integer not in use.
   */
  method FreshId(ts: seq<Timer>) returns (newId: int)
    ensures IsLeastFreeId(Ids(ts), newId)
  {
    newId := 1;
    var usedIds := Ids(ts);
    ghost var bound := MaxId(ts);
    while newId in usedIds
      invariant 1 <= newId <= bound + 1
      invariant forall k :: 1 <= k < newId ==> k in usedIds
      decreases bound + 1 - newId
    {
      newId := newId + 1;
    }
  }

  /**
   * The provisional timer `addNewRow` sends: it carries the new id, is
   * stopped with nothing left, and has neither minutes nor an end time yet.
   */
  function Provisional(id: int): (t: Timer)
    ensures t.id == id
    ensures !t.isRunning && t.timeLeft == 0 && t.minutes.Unset? && t.endTime.NoEnd?
  {
    Timer(id, Unset, 0, false, NoEnd)
  }

  /**
   * Once the server echoes the provisional timer back as `timer-added`, the
   * store still holds no duplicate id: the fresh id is new by construction.
   */
  lemma FreshIdKeepsUnique(ts: seq<Timer>, n: int)
    requires UniqueIds(ts) && IsLeastFreeId(Ids(ts), n)
    ensures UniqueIds(ts + [Provisional(n)])
    ensures Ids(ts + [Provisional(n)]) == Ids(ts) + {n}
  {
    AppendUniqueIff(ts, Provisional(n));
    IdsOfSnoc(ts, Provisional(n));
  }
}
