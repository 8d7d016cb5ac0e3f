/** The channel to the card (`card.transmit`) and the record of one session's
    command/response exchanges. */
module Channel {
  import opened Common
  import opened Apdu

  /** `card.transmit`: the reply to `command`, given every command sent before
      it in the session. A card's answer depends on that history (READ BINARY
      reads the file the last SELECT chose); the reader itself may fail, which
      is the `Err` case. */
  type Transport = (seq<Apdu>, Apdu) -> Result<seq<byte>>

  /** One command sent and what came back. */
  datatype Exchange = Exchange(command: Apdu, reply: Result<seq<byte>>)

  /** The commands of a log, in the order they were sent. */
  function Commands(log: seq<Exchange>): (r: seq<Apdu>)
    ensures |r| == |log|
    decreases |log|
  {
    if |log| == 0 then [] else Commands(log[..|log| - 1]) + [log[|log| - 1].command]
  }

  /** Every reply in `log` is what `t` answers to its command after `before`
      and the log's earlier commands: the log is a faithful transcript. */
  predicate Consistent(t: Transport, before: seq<Apdu>, log: seq<Exchange>)
    decreases |log|
  {
    |log| == 0
    || (var init, last := log[..|log| - 1], log[|log| - 1];
        Consistent(t, before, init) && last.reply == t(before + Commands(init), last.command))
  }

  /** The exchange succeeded: the reader delivered a reply ending in 90 00. */
  predicate Passed(e: Exchange) {
    e.reply.Ok? && StatusOk(e.reply.value)
  }

  /** The data bytes of a successful reply (the reply without its status word). */
  function Data(e: Exchange): seq<byte> {
    if Passed(e) then e.reply.value[..|e.reply.value| - 2] else []
  }

  /** The exchange's reply as the shared response check sees it. */
  function Checked(e: Exchange): Result<seq<byte>> {
    CheckReply(e.reply)
  }

  /** The response check accepts exactly the exchanges that passed, and
      yields their data. */
  lemma CheckedData(e: Exchange)
    ensures Checked(e).Ok? <==> Passed(e)
    ensures Passed(e) ==> Checked(e).value == Data(e)
  {
    if Passed(e) {
      var reply := e.reply.value;
      assert Checked(e).value + SwOk == reply;
      assert Checked(e).value == reply[..|reply| - 2];
    }
  }

  /** The data of all exchanges of a log, concatenated in order. */
  function Payload(log: seq<Exchange>): seq<byte>
    decreases |log|
  {
    if |log| == 0 then [] else Payload(log[..|log| - 1]) + Data(log[|log| - 1])
  }

  /** The transport never answers a READ BINARY that asks for at least one
      byte with a successful reply carrying no data. The read loops only stop
      once the declared length has arrived, so without this they could spin. */
  ghost predicate ReadsProgress(t: Transport) {
    forall h, c :: Progresses(t, h, c)
  }

  /** A successful reply to a READ BINARY asking for data carries some. */
  ghost predicate Progresses(t: Transport, h: seq<Apdu>, c: Apdu) {
    IsBlockRead(c) && t(h, c).Ok? && StatusOk(t(h, c).value) ==> |t(h, c).value| > 2
  }

  /** Sending one more command: the transcript grows by that exchange. */
  method Transmit(t: Transport, before: seq<Apdu>, log: seq<Exchange>, command: Apdu)
    returns (reply: Result<seq<byte>>, log': seq<Exchange>)
    requires Consistent(t, before, log)
    ensures reply == t(before + Commands(log), command)
    ensures log' == log + [Exchange(command, reply)]
    ensures Consistent(t, before, log')
    ensures Commands(log') == Commands(log) + [command]
    ensures Payload(log') == Payload(log) + Data(Exchange(command, reply))
  {
    reply := t(before + Commands(log), command);
    log' := log + [Exchange(command, reply)];
    assert log'[..|log|] == log;
  }

  /** Two transcripts run back to back form one transcript. */
  lemma {:induction false} ConsistentConcat(t: Transport, before: seq<Apdu>, first: seq<Exchange>, second: seq<Exchange>)
    requires Consistent(t, before, first)
    requires Consistent(t, before + Commands(first), second)
    ensures Consistent(t, before, first + second)
    ensures Commands(first + second) == Commands(first) + Commands(second)
    decreases |second|
  {
    if |second| == 0 {
      assert first + second == first;
    } else {
      var init := second[..|second| - 1];
      var log := first + second;
      assert log[..|log| - 1] == first + init;
      assert log[|log| - 1] == second[|second| - 1];
      ConsistentConcat(t, before, first, init);
      assert before + Commands(first + init) == (before + Commands(first)) + Commands(init);
      assert Commands(log) == Commands(first + init) + [second[|second| - 1].command];
      assert Commands(second) == Commands(init) + [second[|second| - 1].command];
    }
  }

  /** The payload of two transcripts run back to back is their payloads joined. */
  lemma {:induction false} PayloadConcat(first: seq<Exchange>, second: seq<Exchange>)
    ensures Payload(first + second) == Payload(first) + Payload(second)
    decreases |second|
  {
    if |second| > 0 {
      var init := second[..|second| - 1];
      assert (first + second)[..|first + second| - 1] == first + init;
      PayloadConcat(first, init);
    } else {
      assert first + second == first;
    }
  }

  /** The response check the reader applies to one exchange: Apollo checks a
      SELECT FILE reply with its own select check, every other reply goes
      through the shared check, and a transport failure is passed on as it is. */
  function ReplyCheck(v: Variant, e: Exchange): (r: Result<seq<byte>>)
    ensures r.Ok? ==> Passed(e)
    ensures e.reply.Err? ==> r == Err(e.reply.error)
    ensures (v.Gemalto? || !IsSelectFile(e.command)) ==> r == Checked(e)
    ensures e.reply.Ok? && |e.reply.value| >= 4 && !StatusOk(e.reply.value) ==>
              var reply := e.reply.value; r == Err(StatusError(reply[|reply| - 2], reply[|reply| - 1]))
    ensures r.Err? && FromCard(r.error) ==> !Passed(e)
  {
    match e.reply
    case Err(err) => Err(err)
    case Ok(bytes) =>
      if v.Apollo? && IsSelectFile(e.command) then ApolloCheckSelect(bytes) else CheckStatus(bytes)
  }

  /** Every exchange of the log passed the reader's response check. */
  predicate AllChecked(v: Variant, log: seq<Exchange>) {
    forall i {:trigger ReplyCheck(v, log[i])} :: 0 <= i < |log| ==> ReplyCheck(v, log[i]).Ok?
  }

  /** An operation with outcome `o` stopped at the first exchange that failed:
      every exchange before the last one passed the response check; the
      operation passed only if every exchange did; a failed last exchange
      is the operation's failure; and a failure that came from the card
      channel (a transport error or a bad status word) is that of the last
      exchange. */
  predicate StopsAt(v: Variant, log: seq<Exchange>, o: Outcome) {
    (forall i {:trigger ReplyCheck(v, log[i])} :: 0 <= i < |log| - 1 ==> ReplyCheck(v, log[i]).Ok?)
    && (o.Pass? ==> AllChecked(v, log))
    && (|log| > 0 && ReplyCheck(v, log[|log| - 1]).Err? ==> o == Fail(ReplyCheck(v, log[|log| - 1]).error))
    && (o.Fail? && FromCard(o.error) ==> |log| > 0 && ReplyCheck(v, log[|log| - 1]).Err?)
  }

  /** A log whose exchanges all passed, extended by one more that passed. */
  lemma AllCheckedAppend(v: Variant, log: seq<Exchange>, e: Exchange)
    requires AllChecked(v, log) && ReplyCheck(v, e).Ok?
    ensures AllChecked(v, log + [e])
  {
    assert forall i :: 0 <= i < |log| ==> (log + [e])[i] == log[i];
  }

  /** After exchanges that all passed, the operation stops with any outcome
      that did not come from the card channel. */
  lemma StopsAtChecked(v: Variant, log: seq<Exchange>, o: Outcome)
    requires AllChecked(v, log)
    requires o.Fail? ==> !FromCard(o.error)
    ensures StopsAt(v, log, o)
  {
  }

  /** After exchanges that all passed, an exchange that fails its check ends
      the operation with that exchange's error. */
  lemma StopsAtFailed(v: Variant, log: seq<Exchange>, e: Exchange)
    requires AllChecked(v, log) && ReplyCheck(v, e).Err?
    ensures StopsAt(v, log + [e], Fail(ReplyCheck(v, e).error))
  {
    assert forall i :: 0 <= i < |log| ==> (log + [e])[i] == log[i];
  }

  /** An exchange after exchanges that all passed: if it passes, all of them
      did; if it fails its check, the operation stops there with its error. */
  lemma CheckedStep(v: Variant, log: seq<Exchange>, e: Exchange)
    requires AllChecked(v, log)
    ensures ReplyCheck(v, e).Ok? ==> AllChecked(v, log + [e])
    ensures ReplyCheck(v, e).Err? ==> StopsAt(v, log + [e], Fail(ReplyCheck(v, e).error))
  {
    if ReplyCheck(v, e).Ok? {
      AllCheckedAppend(v, log, e);
    } else {
      StopsAtFailed(v, log, e);
    }
  }

  /** The same for an exchange other than a SELECT FILE, which every variant
      checks with the shared response check. */
  lemma CheckedStepShared(v: Variant, log: seq<Exchange>, e: Exchange)
    requires AllChecked(v, log) && !IsSelectFile(e.command)
    ensures Checked(e).Ok? ==> AllChecked(v, log + [e])
    ensures Checked(e).Err? ==> StopsAt(v, log + [e], Fail(Checked(e).error))
  {
    CheckedStep(v, log, e);
  }

  /** An operation of a single exchange stops with that exchange's check. */
  lemma StopsAtSingle(v: Variant, e: Exchange)
    ensures StopsAt(v, [e], Verdict(ReplyCheck(v, e)))
  {
    CheckedStep(v, [], e);
  }

  /** A step that stops at its first failure, run after steps that all
      passed, stops at its first failure in the joined transcript. */
  lemma StopsAtConcat(v: Variant, first: seq<Exchange>, second: seq<Exchange>, o: Outcome)
    requires AllChecked(v, first) && StopsAt(v, second, o)
    ensures StopsAt(v, first + second, o)
  {
    var log := first + second;
    assert forall i :: 0 <= i < |first| ==> log[i] == first[i];
    assert forall i :: |first| <= i < |log| ==> log[i] == second[i - |first|];
  }

  /** What stopping at the first failure means for the exchanges themselves:
      each one before the last succeeded (a reply ending in 90 00), all did
      when the operation passed, and a last exchange on which the transport
      failed, or the card answered with a bad status word, is the failure the
      operation reports. */
  lemma StopsAtMeans(v: Variant, log: seq<Exchange>, o: Outcome)
    requires StopsAt(v, log, o)
    ensures forall i :: 0 <= i < |log| - 1 ==> Passed(log[i])
    ensures o.Pass? ==> forall i :: 0 <= i < |log| ==> Passed(log[i])
    ensures |log| > 0 && log[|log| - 1].reply.Err? ==> o == Fail(log[|log| - 1].reply.error)
    ensures |log| > 0 && log[|log| - 1].reply.Ok? ==>
              var reply := log[|log| - 1].reply.value;
              |reply| >= 4 && !StatusOk(reply) ==> o == Fail(StatusError(reply[|reply| - 2], reply[|reply| - 1]))
  {
    forall i | 0 <= i < |log| - 1
      ensures Passed(log[i])
    {
      assert ReplyCheck(v, log[i]).Ok?;
    }
    if o.Pass? {
      forall i | 0 <= i < |log|
        ensures Passed(log[i])
      {
        assert ReplyCheck(v, log[i]).Ok?;
      }
    }
  }
}
