/** The initialisation of the LoRa module: exactly which commands are sent, when it succeeds, and what it
    reports. */
module LoRaStart {
  import opened Text
  import opened AtCommands
  import opened LoRaModel
  import opened LoRaLink
  import LineAssembler

  // ---- What a successful initialisation writes

  // The set-up commands from a given one on, as they appear on the wire.
  function SetUpText(k: nat): string
    requires k <= |SETUP|
    decreases |SETUP| - k
  {
    if k == |SETUP| then "" else SETUP[k] + "\r\n" + SetUpText(k + 1)
  }

  // Commands with their line ends.
  function Lines(cmds: seq<string>): string {
    if cmds == [] then "" else cmds[0] + "\r\n" + Lines(cmds[1..])
  }

  lemma {:induction false} SetUpSpelled(k: nat)
    requires k <= |SETUP|
    ensures SetUpText(k) == Lines(SETUP[k..])
    decreases |SETUP| - k
  {
    if k < |SETUP| {
      SetUpSpelled(k + 1);
      assert SETUP[k..][1..] == SETUP[k + 1..];
    }
  }

  lemma SetUpCommand(k: nat)
    requires k < |SETUP|
    ensures CommandText(SETUP[k]) == SETUP[k]
  {
    PlainCommand(SETUP[k]);
  }

  // Each step of a successful set-up: the link before and after every command.
  ghost predicate SetUpTrace(ls: seq<Link>, env: Env, k: nat)
    requires k <= |SETUP|
  {
    && |ls| == |SETUP| - k + 1
    && forall j :: 0 <= j < |SETUP| - k ==>
         LoRaModel.SendAT(ls[j], SETUP[k + j], env[INIT_RETRIES + k + j]) == (ls[j + 1], true)
  }

  lemma TraceCons(l: Link, later: seq<Link>, env: Env, k: nat)
    requires k < |SETUP| && SetUpTrace(later, env, k + 1)
    requires LoRaModel.SendAT(l, SETUP[k], env[INIT_RETRIES + k]) == (later[0], true)
    ensures SetUpTrace([l] + later, env, k)
  {
    hide LoRaModel.SendAT;
    var ls := [l] + later;
    forall j | 0 <= j < |SETUP| - k
      ensures LoRaModel.SendAT(ls[j], SETUP[k + j], env[INIT_RETRIES + k + j]) == (ls[j + 1], true)
    {
      if j > 0 {
        assert SETUP[k + j] == SETUP[(k + 1) + (j - 1)] && INIT_RETRIES + k + j == INIT_RETRIES + (k + 1) + (j - 1);
      }
    }
  }

  lemma AcceptedText(l: Link, cmd: string, e: Exchange, later: string)
    requires LoRaModel.SendAT(l, cmd, e).1 && CommandText(cmd) == cmd
    ensures LoRaModel.SendAT(l, cmd, e).0.wire + later == l.wire + (cmd + "\r\n" + later)
  {
    hide LoRaModel.SendAT, CommandText;
    var turns, reply := AcceptedCommand(l, cmd, e);
  }

  lemma SetUpFirst(l: Link, env: Env, k: nat)
    requires k < |SETUP| && SetUp(l, env, k).1
    ensures var (after, ok) := LoRaModel.SendAT(l, SETUP[k], env[INIT_RETRIES + k]);
            && ok && SetUp(l, env, k) == SetUp(after, env, k + 1)
            && after.wire + SetUpText(k + 1) == l.wire + SetUpText(k)
  {
    SetUpCommand(k);
    hide LoRaModel.SendAT, CommandText;
    AcceptedText(l, SETUP[k], env[INIT_RETRIES + k], SetUpText(k + 1));
  }

  lemma {:induction false} SetUpWire(l: Link, env: Env, k: nat) returns (ls: seq<Link>)
    requires k <= |SETUP| && SetUp(l, env, k).1
    ensures SetUpTrace(ls, env, k) && ls[0] == l && ls[|ls| - 1] == SetUp(l, env, k).0
    ensures SetUp(l, env, k).0.wire == l.wire + SetUpText(k)
    decreases |SETUP| - k
  {
    if k == |SETUP| {
      ls := [l];
    } else {
      SetUpFirst(l, env, k);
      hide LoRaModel.SendAT, SetUp, SetUpText;
      var after := LoRaModel.SendAT(l, SETUP[k], env[INIT_RETRIES + k]).0;
      var later := SetUpWire(after, env, k + 1);
      ls := [l] + later;
      TraceCons(l, later, env, k);
    }
  }

  lemma JoinTries(wire: string, sent: string, later: seq<string>, text: string)
    ensures wire + sent + Concat(later) + text == wire + Concat([sent] + later) + text
  {
    assert ([sent] + later)[1..] == later;
    assert wire + sent + Concat(later) == wire + (sent + Concat(later));
  }

  lemma {:induction false} ProbeWire(l: Link, env: Env, attempt: nat) returns (tries: seq<string>, k: nat, before: Link)
    requires attempt <= INIT_RETRIES && Probe(l, env, attempt).1
    ensures |tries| == k - attempt && attempt <= k < INIT_RETRIES
    ensures forall i :: 0 <= i < |tries| ==> tries[i] <= "AT\r\n"
    ensures LoRaModel.SendAT(before, "AT", env[k]) == (Probe(l, env, attempt).0, true)
    ensures Probe(l, env, attempt).0.wire == l.wire + Concat(tries) + "AT\r\n"
    decreases INIT_RETRIES - attempt
  {
    hide LoRaModel.SendAT, CommandText;
    PlainCommand("AT");
    var (after, ok) := LoRaModel.SendAT(l, "AT", env[attempt]);
    if ok {
      tries, k, before := [], attempt, l;
      var turns, reply := AcceptedCommand(l, "AT", env[attempt]);
    } else {
      var sent := CommandOnWire(l, "AT", env[attempt]);
      var later;
      later, k, before := ProbeWire(after, env, attempt + 1);
      tries := [sent] + later;
      JoinTries(l.wire, sent, later, "AT\r\n");
    }
  }

  // A successful initialisation: one to three AT commands reached the wire, the first ones perhaps
  // cut short, then the six set-up commands in order and nothing else; the last AT and every later
  // command was accepted.
  lemma InitTranscript(l: Link, env: Env)
    returns (tries: seq<string>, k: nat, before: Link, ls: seq<Link>)
    requires LoRaModel.InitModule(l, env).1
    ensures |ls| == |SETUP| + 1
    ensures var after := LoRaModel.InitModule(l, env).0;
            && k < INIT_RETRIES && |tries| == k && (forall i :: 0 <= i < k ==> tries[i] <= "AT\r\n")
            && after.wire == l.wire + Concat(tries) + "AT\r\n" +
                             Lines(["AT+RESET", "AT+BAND=868000000", "AT+PARAMETER=9,7,1,12", "AT+ADDRESS=1",
                                    "AT+NETWORKID=6", "AT+CRFOP=14"])
            && LoRaModel.SendAT(before, "AT", env[k]) == (ls[0], true)
            && SetUpTrace(ls, env, 0) && ls[|ls| - 1] == after
  {
    SetUpSpelled(0);
    hide Probe, SetUp, SetUpText, Lines, LoRaModel.SendAT;
    tries, k, before := ProbeWire(l, env, 0);
    ls := SetUpWire(Probe(l, env, 0).0, env, 0);
    assert |ls| > 0;
  }

  // ---- Every initialisation

  // One command of an initialisation: what was sent, the link before and after it, and its outcome.
  datatype Sent = Sent(cmd: string, e: Exchange, before: Link, after: Link, ok: bool)

  // Commands sent one after the other from l on.
  ghost predicate Log(l: Link, log: seq<Sent>, last: Link) {
    && (if log == [] then last == l else log[0].before == l && log[|log| - 1].after == last)
    && (forall i :: 0 <= i < |log| ==>
          LoRaModel.SendAT(log[i].before, log[i].cmd, log[i].e) == (log[i].after, log[i].ok))
    && forall i :: 0 < i < |log| ==> log[i].before == log[i - 1].after
  }

  lemma LogCons(first: Sent, log: seq<Sent>, last: Link)
    requires Log(first.after, log, last)
    requires LoRaModel.SendAT(first.before, first.cmd, first.e) == (first.after, first.ok)
    ensures Log(first.before, [first] + log, last)
  {
    hide LoRaModel.SendAT;
    var all := [first] + log;
    forall i | 0 < i < |all| ensures all[i].before == all[i - 1].after {
      assert all[i] == log[i - 1];
    }
  }

  lemma LogConcat(l: Link, a: seq<Sent>, mid: Link, b: seq<Sent>, last: Link)
    requires Log(l, a, mid) && Log(mid, b, last)
    ensures Log(l, a + b, last)
  {
    hide LoRaModel.SendAT;
    if b == [] {
      assert a + b == a;
    } else if a == [] {
      assert a + b == b;
    } else {
      var all := a + b;
      forall i | 0 < i < |all| ensures all[i].before == all[i - 1].after {
        assert i > |a| ==> all[i] == b[i - |a|] && all[i - 1] == b[i - |a| - 1];
      }
    }
  }

  // All but the last are refused, and the last decides.
  ghost predicate Tries(log: seq<Sent>, env: Env, attempt: nat, ok: bool) {
    && attempt + |log| <= 3
    && (forall i :: 0 <= i < |log| ==> log[i].cmd == "AT" && log[i].e == env[attempt + i])
    && (forall i :: 0 <= i < |log| - 1 ==> !log[i].ok)
    && (ok ==> log != [] && log[|log| - 1].ok)
    && (!ok ==> attempt + |log| == 3 && (log != [] ==> !log[|log| - 1].ok))
  }

  lemma TriesCons(first: Sent, log: seq<Sent>, env: Env, attempt: nat, ok: bool)
    requires attempt < 3 && Tries(log, env, attempt + 1, ok)
    requires !first.ok && first.cmd == "AT" && first.e == env[attempt]
    ensures Tries([first] + log, env, attempt, ok)
  {
    var all := [first] + log;
    forall i | 0 <= i < |all| ensures all[i].cmd == "AT" && all[i].e == env[attempt + i] {
      assert i > 0 ==> all[i] == log[i - 1] && log[i - 1].e == env[(attempt + 1) + (i - 1)];
    }
  }

  lemma {:induction false} ProbeLog(l: Link, env: Env, attempt: nat) returns (log: seq<Sent>)
    requires attempt <= INIT_RETRIES
    ensures Log(l, log, Probe(l, env, attempt).0) && Tries(log, env, attempt, Probe(l, env, attempt).1)
    decreases INIT_RETRIES - attempt
  {
    if attempt == INIT_RETRIES {
      log := [];
    } else {
      hide LoRaModel.SendAT;
      var (after, ok) := LoRaModel.SendAT(l, "AT", env[attempt]);
      var first := Sent("AT", env[attempt], l, after, ok);
      if ok {
        log := [first];
      } else {
        var later := ProbeLog(after, env, attempt + 1);
        log := [first] + later;
        hide Probe;
        LogCons(first, later, Probe(after, env, attempt + 1).0);
        TriesCons(first, later, env, attempt, Probe(after, env, attempt + 1).1);
      }
    }
  }

  // The set-up commands in order from the k-th on; all but the last are accepted, and the last decides.
  ghost predicate Steps(log: seq<Sent>, env: Env, k: nat, ok: bool) {
    && k + |log| <= 6
    && (forall i :: 0 <= i < |log| ==>
          && log[i].cmd == ["AT+RESET", "AT+BAND=868000000", "AT+PARAMETER=9,7,1,12", "AT+ADDRESS=1",
                            "AT+NETWORKID=6", "AT+CRFOP=14"][k + i]
          && log[i].e == env[3 + k + i])
    && (forall i :: 0 <= i < |log| - 1 ==> log[i].ok)
    && (ok ==> k + |log| == 6 && (log != [] ==> log[|log| - 1].ok))
    && (!ok ==> log != [] && !log[|log| - 1].ok)
  }

  lemma StepsCons(first: Sent, log: seq<Sent>, env: Env, k: nat, ok: bool)
    requires k < 6 && Steps(log, env, k + 1, ok) && first.ok && first.cmd == SETUP[k] && first.e == env[3 + k]
    ensures Steps([first] + log, env, k, ok)
  {
    var all := [first] + log;
    forall i | 0 <= i < |all| ensures all[i].cmd == SETUP[k + i] && all[i].e == env[3 + k + i] {
      assert i > 0 ==> all[i] == log[i - 1] && log[i - 1].e == env[3 + (k + 1) + (i - 1)] &&
                       log[i - 1].cmd == SETUP[(k + 1) + (i - 1)];
    }
  }

  lemma {:induction false} SetUpLog(l: Link, env: Env, k: nat) returns (log: seq<Sent>)
    requires k <= |SETUP|
    ensures Log(l, log, SetUp(l, env, k).0) && Steps(log, env, k, SetUp(l, env, k).1)
    decreases |SETUP| - k
  {
    if k == |SETUP| {
      log := [];
    } else {
      hide LoRaModel.SendAT;
      var (after, ok) := LoRaModel.SendAT(l, SETUP[k], env[INIT_RETRIES + k]);
      var first := Sent(SETUP[k], env[INIT_RETRIES + k], l, after, ok);
      if !ok {
        log := [first];
      } else {
        var later := SetUpLog(after, env, k + 1);
        log := [first] + later;
        hide SetUp;
        LogCons(first, later, SetUp(after, env, k + 1).0);
        StepsCons(first, later, env, k, SetUp(after, env, k + 1).1);
      }
    }
  }

  // Every initialisation, whatever the replies: one to three AT commands, the last of which alone may be
  // accepted; then, if it is, the six set-up commands in order up to the first that is refused. It
  // succeeds if and only if all six are accepted.
  lemma InitExactly(l: Link, env: Env) returns (tries: seq<Sent>, alive: bool, steps: seq<Sent>)
    ensures var (after, ok) := LoRaModel.InitModule(l, env);
            && Log(l, tries + steps, after)
            && Tries(tries, env, 0, alive)
            && (if alive then Steps(steps, env, 0, ok) else steps == [] && !ok)
  {
    hide Probe, SetUp, Tries, Steps, Log;
    tries := ProbeLog(l, env, 0);
    var (mid, answered) := Probe(l, env, 0);
    alive := answered;
    if alive {
      steps := SetUpLog(mid, env, 0);
      LogConcat(l, tries, mid, steps, SetUp(mid, env, 0).0);
    } else {
      steps := [];
      assert tries + [] == tries;
    }
  }

  // An error line waiting for one of the set-up commands stops the initialisation there.
  lemma ErrorStops(l: Link, env: Env, tries: seq<Sent>, steps: seq<Sent>, j: nat, w: string, rest: string)
    requires Log(l, tries + steps, LoRaModel.InitModule(l, env).0)
    requires Tries(tries, env, 0, true) && Steps(steps, env, 0, LoRaModel.InitModule(l, env).1)
    requires j < |steps| && steps[j].before.rx == w + "\n" + rest && Free(w, '\n') && |steps[j].e.arrivals| > |w|
    requires "+ERR" <= LineAssembler.Stored(w) && |LineAssembler.Stored(w)| < AT_BUF_SIZE
    ensures j == |steps| - 1 && !LoRaModel.InitModule(l, env).1
  {
    assert (tries + steps)[|tries| + j] == steps[j];
    hide LoRaModel.SendAT, LoRaModel.InitModule, LineAssembler.Stored, Tries;
    ErrorRefused(steps[j].before, steps[j].cmd, steps[j].e, w, rest);
  }

  // ---- What it reports

  // b is a with overruns behind it.
  predicate OnlyOverruns(a: seq<Output>, b: seq<Output>) {
    a <= b && forall k :: |a| <= k < |b| ==> b[k] == AtBufOverrun
  }

  lemma OverrunsConcat(a: seq<Output>, b: seq<Output>, c: seq<Output>)
    requires OnlyOverruns(a, b) && OnlyOverruns(b, c)
    ensures OnlyOverruns(a, c)
  {
  }

  lemma CommandReports(l: Link, cmd: string, e: Exchange)
    ensures OnlyOverruns(l.outputs, LoRaModel.SendAT(l, cmd, e).0.outputs)
  {
    hide LoRaModel.SendAT, Consumed, LineOf, Overran, CommandText, Room;
    var sent, turns, c := AcceptedExactly(l, cmd, e);
  }

  lemma NoOverruns(a: seq<Output>)
    ensures OnlyOverruns(a, a)
  {
  }

  lemma {:induction false} LogReports(l: Link, log: seq<Sent>, last: Link)
    requires Log(l, log, last)
    ensures OnlyOverruns(l.outputs, last.outputs)
  {
    hide LoRaModel.SendAT, OnlyOverruns;
    if log != [] {
      var before, x := log[..|log| - 1], log[|log| - 1];
      LogReports(l, before, x.before);
      CommandReports(x.before, x.cmd, x.e);
      OverrunsConcat(l.outputs, x.before.outputs, last.outputs);
    } else {
      NoOverruns(l.outputs);
    }
  }

  // The start-up handler and the reset command: whatever overruns the replies cause, then one event and
  // the state channel, 1 for ready and 2 for failed; the counters stay.
  lemma RestartExactly(d: Driver, env: Env) returns (overruns: seq<Output>)
    ensures var (d', ok) := Restart(d, env);
            && ok == LoRaModel.InitModule(d.link, env).1
            && (forall k :: 0 <= k < |overruns| ==> overruns[k] == AtBufOverrun)
            && d' == Driver(if ok then Ready else Failed,
                            LoRaModel.InitModule(d.link, env).0.(outputs := d'.link.outputs),
                            d.txCount, d.txErrors, d.rxCount)
            && d'.link.outputs == d.link.outputs + overruns +
                                  (if ok then [ModuleReady, ModuleStateChannel(1)]
                                   else [InitFailed(3), ModuleStateChannel(2)])
  {
    hide LoRaModel.InitModule, LoRaModel.SendAT, Log, Tries, Steps;
    var tries, alive, steps := InitExactly(d.link, env);
    var (l, ok) := LoRaModel.InitModule(d.link, env);
    LogReports(d.link, tries + steps, l);
    overruns := l.outputs[|d.link.outputs|..];
    assert l.outputs == d.link.outputs + overruns;
  }
}
