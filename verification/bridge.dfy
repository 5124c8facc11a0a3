/**
 * The event-driven loop of src/rhaws.js: the `connect` handler writes the
 * first poll command, every line from the sensor arms one timer and publishes
 * one message, every timer that fires writes the next poll command, and the
 * `close` handler only logs. Time is an input: `now` is the ISO-8601 text of
 * the timestamp taken when a line arrives, and a timer firing is an event.
 */
module Bridge {
  import opened Telemetry

  /** The topic every reading is published on. */
  const Topic: string := "nuc/temperature"

  /** The delay, in milliseconds, of the timer armed after each reading. */
  const Period: nat := 3000

  /** The command that asks the RH-USB sensor for one reading. */
  const PollCommand: string := "PA\r\n"

  /** What `device.publish` is given: a topic and the payload it serializes. */
  datatype Message = Message(topic: string, payload: Payload)

  /** The externally visible effects of the handlers, in the order they happen. */
  datatype Effect =
    | PortWrite(data: string)
    | TimerArmed(delay: nat)
    | Published(message: Message)

  /** What was written to the serial port, in order. */
  function Writes(trace: seq<Effect>): seq<string> {
    if trace == [] then []
    else (if trace[0].PortWrite? then [trace[0].data] else []) + Writes(trace[1..])
  }

  /** What was handed to the publish sink, in order. */
  function Publications(trace: seq<Effect>): seq<Message> {
    if trace == [] then []
    else (if trace[0].Published? then [trace[0].message] else []) + Publications(trace[1..])
  }

  /** How many timers were armed. */
  function ArmCount(trace: seq<Effect>): nat {
    if trace == [] then 0
    else (if trace[0].TimerArmed? then 1 else 0) + ArmCount(trace[1..])
  }

  lemma {:induction false} WritesAppend(a: seq<Effect>, b: seq<Effect>)
    ensures Writes(a + b) == Writes(a) + Writes(b)
  {
    if a == [] {
      assert a + b == b;
    } else {
      var head := if a[0].PortWrite? then [a[0].data] else [];
      assert (a + b)[1..] == a[1..] + b;
      assert Writes(a + b) == head + Writes(a[1..] + b);
      WritesAppend(a[1..], b);
      assert head + (Writes(a[1..]) + Writes(b)) == (head + Writes(a[1..])) + Writes(b);
    }
  }

  lemma {:induction false} PublicationsAppend(a: seq<Effect>, b: seq<Effect>)
    ensures Publications(a + b) == Publications(a) + Publications(b)
  {
    if a == [] {
      assert a + b == b;
    } else {
      var head := if a[0].Published? then [a[0].message] else [];
      assert (a + b)[1..] == a[1..] + b;
      assert Publications(a + b) == head + Publications(a[1..] + b);
      PublicationsAppend(a[1..], b);
      assert head + (Publications(a[1..]) + Publications(b)) == (head + Publications(a[1..])) + Publications(b);
    }
  }

  lemma {:induction false} ArmCountAppend(a: seq<Effect>, b: seq<Effect>)
    ensures ArmCount(a + b) == ArmCount(a) + ArmCount(b)
  {
    if a == [] {
      assert a + b == b;
    } else {
      assert (a + b)[1..] == a[1..] + b;
      ArmCountAppend(a[1..], b);
    }
  }

  /**
   * Arming and publishing come in pairs: every armed timer is immediately
   * followed by a publication, and every publication immediately preceded
   * by an armed timer.
   */
  ghost predicate Paired(trace: seq<Effect>) {
    && (forall i :: 0 <= i < |trace| && trace[i].TimerArmed? ==> i + 1 < |trace| && trace[i + 1].Published?)
    && (forall i :: 0 <= i < |trace| && trace[i].Published? ==> 0 < i && trace[i - 1].TimerArmed?)
  }

  /** Two paired traces stay paired when joined. */
  lemma PairedAppend(a: seq<Effect>, b: seq<Effect>)
    requires Paired(a) && Paired(b)
    ensures Paired(a + b)
  {
    var t := a + b;
    forall i | 0 <= i < |t| && t[i].TimerArmed?
      ensures i + 1 < |t| && t[i + 1].Published?
    {
      if i < |a| {
        assert a[i] == t[i];
        assert t[i + 1] == a[i + 1];
      } else {
        assert b[i - |a|] == t[i];
        assert t[i + 1] == b[i + 1 - |a|];
      }
    }
    forall i | 0 <= i < |t| && t[i].Published?
      ensures 0 < i && t[i - 1].TimerArmed?
    {
      if i < |a| {
        assert a[i] == t[i];
        assert t[i - 1] == a[i - 1];
      } else {
        assert b[i - |a|] == t[i];
        assert t[i - 1] == b[i - 1 - |a|];
      }
    }
  }

  /** The projections of a trace that starts with `e`. */
  lemma EffectsCons(e: Effect, rest: seq<Effect>)
    ensures Writes([e] + rest) == (if e.PortWrite? then [e.data] else []) + Writes(rest)
    ensures Publications([e] + rest) == (if e.Published? then [e.message] else []) + Publications(rest)
    ensures ArmCount([e] + rest) == (if e.TimerArmed? then 1 else 0) + ArmCount(rest)
  {
    assert ([e] + rest)[1..] == rest;
  }

  /** What one processed line adds to the trace: one timer, one publication, no write. */
  lemma ReadingEffects(m: Message)
    ensures var added := [TimerArmed(Period), Published(m)];
      && Writes(added) == [] && Publications(added) == [m]
      && ArmCount(added) == 1 && Paired(added)
  {
    EffectsCons(Published(m), []);
    assert [Published(m)] + [] == [Published(m)];
    EffectsCons(TimerArmed(Period), [Published(m)]);
    assert [TimerArmed(Period)] + [Published(m)] == [TimerArmed(Period), Published(m)];
  }

  /** What one poll adds to the trace: one write, nothing else. */
  lemma PollEffects()
    ensures var added := [PortWrite(PollCommand)];
      && Writes(added) == [PollCommand] && Publications(added) == []
      && ArmCount(added) == 0 && Paired(added)
  {
    assert [PortWrite(PollCommand)][1..] == [];
  }

  /**
   * The bridge between the sensor's serial port and the publish sink, from
   * the moment the port has opened and the device object exists.
   */
  class Bridge {
    /** Every string given to `port.write`, in order. */
    var writes: seq<string>
    /** Timers armed by `setTimeout` that have not fired yet. */
    var armed: nat
    /** Every message given to `device.publish`, in order. */
    var published: seq<Message>

    /** All effects in the order they happened. */
    ghost var trace: seq<Effect>
    /** How many `connect` events and timer fires there have been. */
    ghost var connects: nat
    ghost var fires: nat

    /**
     * The writes and publications are the trace's; every write is the poll
     * command and comes from a `connect` event or a timer; every publication
     * goes to the topic and is immediately preceded by the arming of one
     * timer for the period, and every armed timer by nothing else.
     */
    ghost predicate Valid()
      reads this
    {
      && writes == Writes(trace)
      && published == Publications(trace)
      && |writes| == connects + fires
      && ArmCount(trace) == armed + fires
      && ArmCount(trace) == |published|
      && (forall i :: 0 <= i < |writes| ==> writes[i] == PollCommand)
      && (forall i :: 0 <= i < |published| ==> published[i].topic == Topic)
      && (forall i :: 0 <= i < |trace| && trace[i].TimerArmed? ==> trace[i].delay == Period)
      && Paired(trace)
    }

    /** Opening the serial port writes nothing: no poll before `connect`. */
    constructor ()
      ensures Valid()
      ensures writes == [] && armed == 0 && published == []
      ensures trace == [] && connects == 0 && fires == 0
    {
      writes, armed, published := [], 0, [];
      trace, connects, fires := [], 0, 0;
    }

    /**
     * `readRHUSB`: one poll command to the serial port. A step inside the
     * `connect` and timer handlers, which restore `Valid()` around it.
     */
    method ReadRHUSB()
      modifies this
      ensures writes == old(writes) + [PollCommand]
      ensures trace == old(trace) + [PortWrite(PollCommand)]
      ensures armed == old(armed) && published == old(published)
      ensures connects == old(connects) && fires == old(fires)
    {
      writes := writes + [PollCommand];
      trace := trace + [PortWrite(PollCommand)];
    }

    /**
     * `publish`: the payload goes to the sink on the fixed topic, whatever
     * the connection state. A step inside `OnLine`, which restores `Valid()`
     * around it.
     */
    method Publish(payload: Payload)
      modifies this
      ensures published == old(published) + [Message(Topic, payload)]
      ensures trace == old(trace) + [Published(Message(Topic, payload))]
      ensures writes == old(writes) && armed == old(armed)
      ensures connects == old(connects) && fires == old(fires)
    {
      published := published + [Message(Topic, payload)];
      trace := trace + [Published(Message(Topic, payload))];
    }

    /** The `connect` handler: exactly one poll command, nothing else. */
    method OnConnect()
      requires Valid()
      modifies this
      ensures Valid()
      ensures writes == old(writes) + [PollCommand]
      ensures armed == old(armed) && published == old(published)
      ensures trace == old(trace) + [PortWrite(PollCommand)]
      ensures connects == old(connects) + 1 && fires == old(fires)
    {
      ghost var before := trace;
      ReadRHUSB();
      connects := connects + 1;
      WritesAppend(before, [PortWrite(PollCommand)]);
      PublicationsAppend(before, [PortWrite(PollCommand)]);
      ArmCountAppend(before, [PortWrite(PollCommand)]);
      PollEffects();
      PairedAppend(before, [PortWrite(PollCommand)]);
    }

    /**
     * The `data` handler, `processReading`: the line is decoded, one timer is
     * armed for the period and then, with no connection check, one message
     * is published whose time is the timestamp taken on arrival.
     */
    method OnLine(line: string, now: string)
      requires Valid()
      modifies this
      ensures Valid()
      ensures armed == old(armed) + 1 && writes == old(writes)
      ensures published == old(published) + [Message(Topic, PayloadOf(line, now))]
      ensures trace == old(trace) + [TimerArmed(Period), Published(Message(Topic, PayloadOf(line, now)))]
      ensures connects == old(connects) && fires == old(fires)
    {
      ghost var before := trace;
      var payload := PayloadOf(line, now);
      armed := armed + 1;
      trace := trace + [TimerArmed(Period)];
      Publish(payload);
      ghost var added := [TimerArmed(Period), Published(Message(Topic, PayloadOf(line, now)))];
      assert trace == before + added;
      WritesAppend(before, added);
      PublicationsAppend(before, added);
      ArmCountAppend(before, added);
      ReadingEffects(Message(Topic, PayloadOf(line, now)));
      PairedAppend(before, added);
    }

    /** A timer armed by `processReading` fires and calls `readRHUSB`. */
    method OnTimerFire()
      requires Valid()
      requires armed > 0
      modifies this
      ensures Valid()
      ensures armed == old(armed) - 1
      ensures writes == old(writes) + [PollCommand] && published == old(published)
      ensures trace == old(trace) + [PortWrite(PollCommand)]
      ensures connects == old(connects) && fires == old(fires) + 1
    {
      ghost var before := trace;
      armed := armed - 1;
      fires := fires + 1;
      ReadRHUSB();
      WritesAppend(before, [PortWrite(PollCommand)]);
      PublicationsAppend(before, [PortWrite(PollCommand)]);
      ArmCountAppend(before, [PortWrite(PollCommand)]);
      PollEffects();
      PairedAppend(before, [PortWrite(PollCommand)]);
    }

    /** The `close` handler only logs: nothing is published, written or cancelled. */
    method OnClose()
      requires Valid()
      ensures Valid()
      ensures unchanged(this)
    {
    }

    /**
     * Poll writes minus publications plus armed timers always equals the
     * number of `connect` events so far: a `connect` adds a write, a line
     * adds a publication and an armed timer, and a timer fire trades its
     * timer for a write. When every line answers a poll written earlier,
     * writes minus publications are the polls still unanswered, so each
     * `connect` keeps one more poll cycle running; a line the sensor sends
     * unasked arms a timer without answering a poll, which also starts a
     * cycle of its own.
     */
    lemma CyclesInFlight()
      requires Valid()
      ensures |writes| - |published| + armed == connects
    {
    }

    /**
     * The connection closes, a reading still arrives and then the device
     * connects again: the reading is published regardless, and the new
     * `connect` starts one more poll cycle beside the ones already running.
     */
    method CloseThenReconnect(line: string, now: string)
      requires Valid()
      modifies this
      ensures Valid()
      ensures published == old(published) + [Message(Topic, PayloadOf(line, now))]
      ensures writes == old(writes) + [PollCommand] && armed == old(armed) + 1
      ensures connects == old(connects) + 1 && fires == old(fires)
    {
      OnClose();
      OnLine(line, now);
      OnConnect();
    }
  }
}
