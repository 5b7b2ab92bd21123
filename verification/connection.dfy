/**
 * The connection manager's bounded reconnect policy: a retry counter that an
 * open resets and each close increments while it is below the maximum, a
 * reconnect being scheduled exactly when it is incremented.
 */
module Connection {

  const MAX_RETRIES: nat := 3

  /** The connection status shown to the user. */
  datatype Status = Connecting | Connected | ConnectionError | Disconnected | RefreshRequired

  /** The status text the client displays. */
  function StatusText(s: Status): string {
    match s
    case Connecting => "연결 중..."
    case Connected => "연결됨"
    case ConnectionError => "연결 오류"
    case Disconnected => "연결 끊김"
    case RefreshRequired => "연결 오류 - 새로고침 필요"
  }

  /** The socket callbacks that drive the policy. */
  datatype Event = Opened | Errored | Closed

  /** The retry counter and the status, the state the callbacks update. */
  datatype Link = Link(retryCount: nat, status: Status)

  /** A close schedules a reconnect exactly while the counter is below the maximum. */
  predicate Schedules(l: Link, e: Event) {
    e == Closed && l.retryCount < MAX_RETRIES
  }

  /**
   * One callback: an open resets the counter and reports connected, an error
   * only reports the error, a close reports the disconnection and counts the
   * reconnect it schedules.
   */
  function Step(l: Link, e: Event): (r: Link)
    ensures e == Opened ==> r.retryCount == 0
    ensures e != Opened ==> r.retryCount == l.retryCount + (if Schedules(l, e) then 1 else 0)
    ensures l.retryCount <= MAX_RETRIES ==> r.retryCount <= MAX_RETRIES
    ensures r.status == match e case Opened => Connected case Errored => ConnectionError case Closed => Disconnected
  {
    match e
    case Opened => Link(0, Connected)
    case Errored => l.(status := ConnectionError)
    case Closed =>
      if l.retryCount < MAX_RETRIES then Link(l.retryCount + 1, Disconnected)
      else l.(status := Disconnected)
  }

  /**
   * The state after a sequence of callbacks: the status shown is the one the
   * last callback set, and a final open leaves the counter at zero.
   */
  function Run(l: Link, es: seq<Event>): (r: Link)
    ensures es != [] ==> r.status == match es[|es| - 1] case Opened => Connected case Errored => ConnectionError case Closed => Disconnected
    ensures es != [] && es[|es| - 1] == Opened ==> r.retryCount == 0
    decreases |es|
  {
    if es == [] then l
    else
      assert |es| >= 2 ==> es[1..][|es[1..]| - 1] == es[|es| - 1];
      Run(Step(l, es[0]), es[1..])
  }

  /** The number of reconnects a sequence of callbacks schedules. */
  function ScheduledCount(l: Link, es: seq<Event>): nat
    decreases |es|
  {
    if es == [] then 0
    else (if Schedules(l, es[0]) then 1 else 0) + ScheduledCount(Step(l, es[0]), es[1..])
  }

  /** The number of close callbacks in a sequence. */
  function CloseCount(es: seq<Event>): nat
    decreases |es|
  {
    if es == [] then 0 else (if es[0] == Closed then 1 else 0) + CloseCount(es[1..])
  }

  function Min(a: int, b: int): int {
    if a <= b then a else b
  }

  /** The counter never exceeds the maximum, whatever the callbacks. */
  lemma {:induction false} RunKeepsBound(l: Link, es: seq<Event>)
    requires l.retryCount <= MAX_RETRIES
    ensures Run(l, es).retryCount <= MAX_RETRIES
    decreases |es|
  {
    if es != [] {
      RunKeepsBound(Step(l, es[0]), es[1..]);
    }
  }

  /**
   * Without a successful open in between, closes schedule reconnects until
   * the counter reaches the maximum and none after: the number scheduled is
   * the smaller of the remaining budget and the number of closes, and the
   * counter grows by exactly that much.
   */
  lemma {:induction false} ScheduledWithoutOpen(l: Link, es: seq<Event>)
    requires l.retryCount <= MAX_RETRIES
    requires forall i :: 0 <= i < |es| ==> es[i] != Opened
    ensures ScheduledCount(l, es) == Min(MAX_RETRIES - l.retryCount, CloseCount(es))
    ensures Run(l, es).retryCount == l.retryCount + ScheduledCount(l, es)
    decreases |es|
  {
    if es != [] {
      ScheduledWithoutOpen(Step(l, es[0]), es[1..]);
    }
  }

  /** With no open in between, at most three reconnects are scheduled. */
  lemma AtMostMaxRetriesWithoutOpen(l: Link, es: seq<Event>)
    requires l.retryCount <= MAX_RETRIES
    requires forall i :: 0 <= i < |es| ==> es[i] != Opened
    ensures ScheduledCount(l, es) <= MAX_RETRIES - l.retryCount
  {
    ScheduledWithoutOpen(l, es);
  }

  /**
   * A connection that never opens, starting from a fresh counter, is retried
   * exactly three times once it has closed at least three times.
   */
  lemma NeverOpensRetriesExactlyMax(status: Status, es: seq<Event>)
    requires forall i :: 0 <= i < |es| ==> es[i] != Opened
    requires CloseCount(es) >= MAX_RETRIES
    ensures ScheduledCount(Link(0, status), es) == MAX_RETRIES
    ensures Run(Link(0, status), es).retryCount == MAX_RETRIES
  {
    ScheduledWithoutOpen(Link(0, status), es);
  }
}
