/**
 * The synchronisation engine: the state the client component keeps (the
 * timer store, the connection status, the retry counter of the reconnect
 * closure) together with the messages it has written to the socket, and the
 * handlers that change them. The socket's ready state is an input to each
 * command: it belongs to the browser, not to the component.
 */
module Sync {
  import opened Options
  import opened Timers
  import opened Protocol
  import opened Connection

  class SyncEngine {
    var timers: seq<Timer>
    var retryCount: nat
    var status: Status
    var outbox: seq<Outbound>

    /** The retry counter never exceeds the maximum. */
    ghost predicate Valid()
      reads this
    {
      retryCount <= MAX_RETRIES
    }

    /** The connection manager's part of the state. */
    function LinkState(): Link
      reads this
    {
      Link(retryCount, status)
    }

    /** Mounting: an empty store, a fresh counter, "connecting", nothing sent. */
    constructor ()
      ensures Valid()
      ensures timers == [] && retryCount == 0 && status == Connecting && outbox == []
    {
      timers, retryCount, status, outbox := [], 0, Connecting, [];
    }

    /** `onopen`: report connected, reset the counter and ask for the full list, once. */
    method OnOpen()
      requires Valid()
      modifies this
      ensures Valid()
      ensures LinkState() == Step(old(LinkState()), Opened)
      ensures retryCount == 0 && status == Connected
      ensures outbox == old(outbox) + [GetTimers]
      ensures timers == old(timers)
    {
      status := Connected;
      retryCount := 0;
      outbox := outbox + [GetTimers];
    }

    /** `onerror`: report the error; nothing else changes. */
    method OnError()
      requires Valid()
      modifies this
      ensures Valid()
      ensures LinkState() == Step(old(LinkState()), Errored)
      ensures status == ConnectionError && retryCount == old(retryCount)
      ensures outbox == old(outbox) && timers == old(timers)
    {
      status := ConnectionError;
    }

    /**
     * `onclose`: report the disconnection; while the counter is below the
     * maximum, count one more attempt and schedule a reconnect.
     */
    method OnClose() returns (scheduled: bool)
      requires Valid()
      modifies this
      ensures Valid()
      ensures LinkState() == Step(old(LinkState()), Closed)
      ensures scheduled <==> old(retryCount) < MAX_RETRIES
      ensures scheduled == Schedules(old(LinkState()), Closed)
      ensures retryCount == if scheduled then old(retryCount) + 1 else old(retryCount)
      ensures status == Disconnected
      ensures outbox == old(outbox) && timers == old(timers)
    {
      status := Disconnected;
      scheduled := false;
      if retryCount < MAX_RETRIES {
        retryCount := retryCount + 1;
        scheduled := true;
      }
    }

    /** `onmessage`: decode the parsed payload and apply it to the store; nothing else changes. */
    method OnMessage(parsed: Option<Envelope>)
      requires Valid()
      modifies this
      ensures Valid()
      ensures timers == Apply(old(timers), Decode(parsed))
      ensures parsed.None? ==> timers == old(timers)
      ensures retryCount == old(retryCount) && status == old(status) && outbox == old(outbox)
    {
      timers := Apply(timers, Decode(parsed));
    }

    /** The refusal every command shares when the socket is not open. */
    method RefuseCommand()
      requires Valid()
      modifies this
      ensures Valid()
      ensures status == RefreshRequired
      ensures timers == old(timers) && retryCount == old(retryCount) && outbox == old(outbox)
    {
      status := RefreshRequired;
    }

    /**
     * `startTimer(id, minutes)`: with the socket open, send one `start-timer`
     * carrying the end time computed from the clock (given here as text); the
     * store is not touched, the server confirms with `timer-updated`.
     */
    method StartTimer(open: bool, id: int, minutes: Minutes, endTime: string)
      requires Valid()
      modifies this
      ensures Valid()
      ensures open ==> outbox == old(outbox) + [Outbound.StartTimer(id, minutes, endTime)] && status == old(status)
      ensures !open ==> outbox == old(outbox) && status == RefreshRequired
      ensures timers == old(timers) && retryCount == old(retryCount)
    {
      if open {
        outbox := outbox + [Outbound.StartTimer(id, minutes, endTime)];
      } else {
        RefuseCommand();
      }
    }

    /** `resetTimer(id)`: with the socket open, send one `reset-timer`; the store is not touched. */
    method ResetTimer(open: bool, id: int)
      requires Valid()
      modifies this
      ensures Valid()
      ensures open ==> outbox == old(outbox) + [Outbound.ResetTimer(id)] && status == old(status)
      ensures !open ==> outbox == old(outbox) && status == RefreshRequired
      ensures timers == old(timers) && retryCount == old(retryCount)
    {
      if open {
        outbox := outbox + [Outbound.ResetTimer(id)];
      } else {
        RefuseCommand();
      }
    }

    /**
     * `deleteTimer(id)`: with the socket open, send one `delete-timer` and
     * remove the entries with that id at once, before the server answers.
     */
    method DeleteTimer(open: bool, id: int)
      requires Valid()
      modifies this
      ensures Valid()
      ensures open ==> outbox == old(outbox) + [Outbound.DeleteTimer(id)] && status == old(status)
      ensures open ==> timers == RemoveById(old(timers), id) && id !in Ids(timers)
      ensures !open ==> outbox == old(outbox) && status == RefreshRequired && timers == old(timers)
      ensures retryCount == old(retryCount)
    {
      if open {
        outbox := outbox + [Outbound.DeleteTimer(id)];
        timers := RemoveById(timers, id);
      } else {
        RefuseCommand();
      }
    }

    /**
     * `addNewRow()`: with the socket open, send one `add-timer` carrying a
     * provisional timer whose id is the least positive integer not in the
     * store; the store is not touched, the server confirms with `timer-added`.
     */
    method AddNewRow(open: bool)
      requires Valid()
      modifies this
      ensures Valid()
      ensures open ==> |outbox| == |old(outbox)| + 1 && outbox[..|old(outbox)|] == old(outbox) && status == old(status)
      ensures open ==> var m := outbox[|old(outbox)|];
        m.AddTimer? && m.timer == Provisional(m.timer.id) && IsLeastFreeId(Ids(timers), m.timer.id)
      ensures !open ==> outbox == old(outbox) && status == RefreshRequired
      ensures timers == old(timers) && retryCount == old(retryCount)
    {
      if open {
        var newId := FreshId(timers);
        outbox := outbox + [AddTimer(Provisional(newId))];
      } else {
        RefuseCommand();
      }
    }
  }

  /** A session: connect, receive a snapshot with ids 1 and 3, add a row, delete id 3, lose the socket. */
  method Session(t1: Timer, t3: Timer)
    requires t1.id == 1 && t3.id == 3
  {
    var engine := new SyncEngine();
    engine.OnOpen();
    assert engine.outbox == [GetTimers];
    engine.OnMessage(Some(Envelope(Some("init-timers"), Some([t1, t3]), None, None)));
    assert engine.timers == [t1, t3];
    engine.OnMessage(Some(Envelope(Some("timer-paused"), None, None, None)));
    engine.OnMessage(None);
    assert engine.timers == [t1, t3];
    engine.AddNewRow(true);
    assert Ids(engine.timers) == {1, 3} by {
      assert engine.timers[0].id == 1 && engine.timers[1].id == 3;
    }
    LeastFreeIdOfOneThree(engine.outbox[1].timer.id);
    assert engine.outbox[1] == AddTimer(Provisional(2));
    engine.DeleteTimer(true, 3);
    assert engine.timers == [t1];
    var scheduled := engine.OnClose();
    assert scheduled && engine.retryCount == 1;
    engine.StartTimer(false, 1, Count(10), "");
    assert |engine.outbox| == 3 && engine.status == RefreshRequired;
  }
}
