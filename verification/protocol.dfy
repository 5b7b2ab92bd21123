/**
 * The wire messages and the inbound reducer: the `switch (data.type)` of the
 * socket's message handler, turned into a closed variant type and a pure
 * function from a store and a message to the next store.
 */
module Protocol {
  import opened Options
  import opened Timers

  /** A parsed JSON object, reduced to the fields the message handler reads. */
  datatype Envelope = Envelope(tag: Option<string>, timers: Option<seq<Timer>>, timer: Option<Timer>, id: Option<int>)

  /** The inbound events, with the two ways a message is ignored. */
  datatype Inbound =
    | InitTimers(snapshot: Option<seq<Timer>>)
    | TimerUpdated(timer: Timer)
    | TimerAdded(timer: Timer)
    | TimerDeleted(id: int)
    | Unknown
    | Malformed

  /** The outbound commands. */
  datatype Outbound =
    | GetTimers
    | StartTimer(id: int, minutes: Minutes, endTime: string)
    | ResetTimer(id: int)
    | DeleteTimer(id: int)
    | AddTimer(timer: Timer)

  const INBOUND_TAGS: set<string> := {"init-timers", "timer-updated", "timer-added", "timer-deleted"}
  const OUTBOUND_TAGS: set<string> := {"get-timers", "start-timer", "reset-timer", "delete-timer", "add-timer"}

  /** The message is one the handler logs and drops. */
  predicate Ignored(m: Inbound) {
    m.Unknown? || m.Malformed?
  }

  /**
   * The dispatch on `data.type`. A parse failure (`parsed == None`) is
   * Malformed; a tag outside the four known ones, or none at all, is Unknown;
   * a known tag whose payload field is absent is Malformed.
   */
  function Decode(parsed: Option<Envelope>): (m: Inbound)
    ensures parsed.None? ==> m.Malformed?
    ensures m.Unknown? <==> parsed.Some? && (parsed.value.tag.None? || parsed.value.tag.value !in INBOUND_TAGS)
    ensures m.InitTimers? <==> parsed.Some? && parsed.value.tag == Some("init-timers")
    ensures m.InitTimers? ==> m.snapshot == parsed.value.timers
    ensures m.TimerUpdated? ==> parsed.Some? && parsed.value.tag == Some("timer-updated") && parsed.value.timer == Some(m.timer)
    ensures m.TimerAdded? ==> parsed.Some? && parsed.value.tag == Some("timer-added") && parsed.value.timer == Some(m.timer)
    ensures m.TimerDeleted? ==> parsed.Some? && parsed.value.tag == Some("timer-deleted") && parsed.value.id == Some(m.id)
    ensures parsed.Some? && parsed.value.tag == Some("timer-updated") && parsed.value.timer.Some? ==> m == TimerUpdated(parsed.value.timer.value)
    ensures parsed.Some? && parsed.value.tag == Some("timer-added") && parsed.value.timer.Some? ==> m == TimerAdded(parsed.value.timer.value)
    ensures parsed.Some? && parsed.value.tag == Some("timer-deleted") && parsed.value.id.Some? ==> m == TimerDeleted(parsed.value.id.value)
    ensures m.Malformed? <==> (parsed.None?
      || (parsed.value.tag in {Some("timer-updated"), Some("timer-added")} && parsed.value.timer.None?)
      || (parsed.value.tag == Some("timer-deleted") && parsed.value.id.None?))
  {
    match parsed
    case None => Malformed
    case Some(e) =>
      match e.tag
      case Some("init-timers") => InitTimers(e.timers)
      case Some("timer-updated") => if e.timer.Some? then TimerUpdated(e.timer.value) else Malformed
      case Some("timer-added") => if e.timer.Some? then TimerAdded(e.timer.value) else Malformed
      case Some("timer-deleted") => if e.id.Some? then TimerDeleted(e.id.value) else Malformed
      case _ => Unknown
  }

  /** The `type` field written for each outbound command. */
  function Tag(m: Outbound): (tag: string)
    ensures tag in OUTBOUND_TAGS
  {
    match m
    case GetTimers => "get-timers"
    case StartTimer(_, _, _) => "start-timer"
    case ResetTimer(_) => "reset-timer"
    case DeleteTimer(_) => "delete-timer"
    case AddTimer(_) => "add-timer"
  }

  /** Two commands of different kinds never carry the same `type`. */
  lemma TagIdentifiesKind(a: Outbound, b: Outbound)
    requires Tag(a) == Tag(b)
    ensures a.GetTimers? == b.GetTimers? && a.StartTimer? == b.StartTimer? && a.ResetTimer? == b.ResetTimer?
    ensures a.DeleteTimer? == b.DeleteTimer? && a.AddTimer? == b.AddTimer?
  {
  }

  /**
   * One inbound message applied to the store: a snapshot replaces it (an
   * absent snapshot empties it), an update replaces by id, an addition
   * appends, a deletion filters by id, and anything else leaves it alone.
   */
  function Apply(ts: seq<Timer>, m: Inbound): (r: seq<Timer>)
    ensures Ignored(m) ==> r == ts
    ensures m.InitTimers? && m.snapshot.Some? ==> r == m.snapshot.value
    ensures m.InitTimers? && m.snapshot.None? ==> r == []
  {
    match m
    case InitTimers(snapshot) => snapshot.GetOr([])
    case TimerUpdated(t) => UpdateById(ts, t)
    case TimerAdded(t) => ts + [t]
    case TimerDeleted(id) => RemoveById(ts, id)
    case Unknown => ts
    case Malformed => ts
  }

  /**
   * `timer-updated` keeps the length, the order and the set of ids; each entry
   * with the incoming id becomes the incoming timer, the rest stay; an id
   * that is not present changes nothing.
   */
  lemma ApplyTimerUpdated(ts: seq<Timer>, t: Timer)
    ensures var r := Apply(ts, TimerUpdated(t));
      && |r| == |ts| && Ids(r) == Ids(ts)
      && (forall i :: 0 <= i < |ts| ==> r[i] == (if ts[i].id == t.id then t else ts[i]))
      && (t.id !in Ids(ts) ==> r == ts)
  {
    UpdateKeepsIds(ts, t);
    if t.id !in Ids(ts) { UpdateAbsentIsNoOp(ts, t); }
  }

  /** `timer-added` appends: one entry more, the old entries first and unchanged, the new id added. */
  lemma ApplyTimerAdded(ts: seq<Timer>, t: Timer)
    ensures var r := Apply(ts, TimerAdded(t));
      && |r| == |ts| + 1 && r[..|ts|] == ts && r[|ts|] == t
      && Ids(r) == Ids(ts) + {t.id}
  {
    IdsOfSnoc(ts, t);
    assert (ts + [t])[..|ts|] == ts;
  }

  /** `timer-deleted` leaves no entry with the id, removes only that id, and keeps the order of the rest. */
  lemma ApplyTimerDeleted(ts: seq<Timer>, id: int)
    ensures var r := Apply(ts, TimerDeleted(id));
      && id !in Ids(r) && Ids(r) == Ids(ts) - {id} && IsSubsequence(r, ts)
  {
    var r := RemoveById(ts, id);
    assert Apply(ts, TimerDeleted(id)) == r;
  }

  /** A snapshot does not depend on the store it replaces, so applying it twice is applying it once. */
  lemma InitTimersIsIdempotent(ts: seq<Timer>, ts': seq<Timer>, snapshot: Option<seq<Timer>>)
    ensures Apply(ts, InitTimers(snapshot)) == Apply(ts', InitTimers(snapshot))
    ensures Apply(Apply(ts, InitTimers(snapshot)), InitTimers(snapshot)) == Apply(ts, InitTimers(snapshot))
  {
  }

  /** The server's `timer-deleted` arriving after the optimistic delete of the same id changes nothing. */
  lemma DeleteEchoIsNoOp(ts: seq<Timer>, id: int)
    ensures Apply(RemoveById(ts, id), TimerDeleted(id)) == RemoveById(ts, id)
  {
    RemoveIsIdempotent(ts, id);
  }

  /**
   * What a message may carry without breaking the store invariant: a snapshot
   * without duplicates, an addition whose id is new.
   */
  predicate Admissible(ts: seq<Timer>, m: Inbound) {
    match m
    case InitTimers(snapshot) => snapshot.None? || UniqueIds(snapshot.value)
    case TimerAdded(t) => t.id !in Ids(ts)
    case _ => true
  }

  /**
   * The store invariant "exactly one entry per id" is kept by every admissible
   * message; an addition of an id already present breaks it.
   */
  lemma ApplyKeepsUniqueIds(ts: seq<Timer>, m: Inbound)
    requires UniqueIds(ts)
    ensures UniqueIds(Apply(ts, m)) <==> Admissible(ts, m)
  {
    match m
    case InitTimers(snapshot) =>
    case TimerUpdated(t) => UpdateKeepsIds(ts, t);
    case TimerAdded(t) => AppendUniqueIff(ts, t);
    case TimerDeleted(id) => RemoveKeepsUnique(ts, id);
    case Unknown =>
    case Malformed =>
  }

  /**
   * Inbound messages applied one after another, in arrival order: when the
   * last message is a snapshot, the store is that snapshot whatever came
   * before it.
   */
  function ApplyAll(ts: seq<Timer>, ms: seq<Inbound>): (r: seq<Timer>)
    ensures ms != [] && ms[|ms| - 1].InitTimers? ==> r == ms[|ms| - 1].snapshot.GetOr([])
    decreases |ms|
  {
    if ms == [] then ts
    else
      assert |ms| >= 2 ==> ms[1..][|ms[1..]| - 1] == ms[|ms| - 1];
      ApplyAll(Apply(ts, ms[0]), ms[1..])
  }

  /** Applying two batches in turn is applying their concatenation: no reordering, no coalescing. */
  lemma {:induction false} ApplyAllConcat(ts: seq<Timer>, ms: seq<Inbound>, ns: seq<Inbound>)
    ensures ApplyAll(ts, ms + ns) == ApplyAll(ApplyAll(ts, ms), ns)
    decreases |ms|
  {
    if ms != [] {
      assert (ms + ns)[0] == ms[0];
      assert (ms + ns)[1..] == ms[1..] + ns;
      ApplyAllConcat(Apply(ts, ms[0]), ms[1..], ns);
    } else {
      assert ms + ns == ns;
    }
  }

  /** A stream of unknown or malformed messages never changes the store. */
  lemma {:induction false} ApplyAllIgnored(ts: seq<Timer>, ms: seq<Inbound>)
    requires forall i :: 0 <= i < |ms| ==> Ignored(ms[i])
    ensures ApplyAll(ts, ms) == ts
    decreases |ms|
  {
    if ms != [] {
      ApplyAllIgnored(ts, ms[1..]);
    }
  }

  /** A run of admissible messages keeps the store invariant at every step. */
  lemma {:induction false} ApplyAllKeepsUniqueIds(ts: seq<Timer>, ms: seq<Inbound>)
    requires UniqueIds(ts)
    requires forall i :: 0 <= i < |ms| ==> Admissible(ApplyAll(ts, ms[..i]), ms[i])
    ensures UniqueIds(ApplyAll(ts, ms))
    decreases |ms|
  {
    if ms != [] {
      assert ms[..0] == [];
      ApplyKeepsUniqueIds(ts, ms[0]);
      var next := Apply(ts, ms[0]);
      forall i | 0 <= i < |ms[1..]| ensures Admissible(ApplyAll(next, ms[1..][..i]), ms[1..][i]) {
        assert ms[..i + 1] == [ms[0]] + ms[1..][..i];
        assert ApplyAll(ts, ms[..i + 1]) == ApplyAll(next, ms[1..][..i]);
        assert ms[1..][i] == ms[i + 1];
      }
      ApplyAllKeepsUniqueIds(next, ms[1..]);
    }
  }
}
