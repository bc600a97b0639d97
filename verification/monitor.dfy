/**
 * The bandwidth-limit monitor of server.go: each tick it reads the current
 * month's transfer from a freshly decoded report, and the first time a
 * successfully parsed value reaches the limit it runs the configured command
 * once and stops for good. Also here: how `main` turns the `-l` flag into
 * the limit and starts the monitor.
 *
 * Running `vnstat` and decoding its XML are outside the model: the monitor
 * receives the sequence of records decoded at its successive ticks. The
 * command it runs is recorded, not executed.
 */
module Monitor {
  import opened Strconv
  import opened Records
  import Strings

  datatype Option<T> = None | Some(value: T)

  // ------------------------------------------------------- the poll value

  /**
   * `getTotalTransfer`: with no month listed the value is 0 and no error;
   * otherwise it is `Atoi` of the first month's sent (tx) count and nothing
   * else: neither the received count nor any later month is read.
   */
  function TotalTransfer(q: Vnstat): (r: IntResult)
    ensures r.Ok? ==> IsInt64(r.value)
    ensures q.ifaces.traffic.months.month == [] ==> r == Ok(0)
    ensures var months := q.ifaces.traffic.months.month;
            months != [] ==>
              && (r.Ok? <==> WellFormed(months[0].transfer) && IsInt64(SignedValue(months[0].transfer)))
              && (r.Ok? ==> r.value == SignedValue(months[0].transfer))
  {
    var months := q.ifaces.traffic.months.month;
    if |months| > 0 then
      AtoiCharacterization(months[0].transfer);
      Atoi(months[0].transfer)
    else
      Ok(0)
  }

  /** Two reports that agree on the first month's tx give the same poll value. */
  lemma TransferReadsFirstTxOnly(q1: Vnstat, q2: Vnstat)
    requires q1.ifaces.traffic.months.month != [] && q2.ifaces.traffic.months.month != []
    requires q1.ifaces.traffic.months.month[0].transfer == q2.ifaces.traffic.months.month[0].transfer
    ensures TotalTransfer(q1) == TotalTransfer(q2)
  {
  }

  /** A tx count written out in decimal is read back exactly. */
  lemma {:induction false} TransferOfDecimalCount(q: Vnstat, n: int)
    requires IsInt64(n)
    requires q.ifaces.traffic.months.month != [] && q.ifaces.traffic.months.month[0].transfer == Itoa(n)
    ensures TotalTransfer(q) == Ok(n)
  {
    AtoiItoa(n);
  }

  /**
   * A report the tool could not produce (empty output), or whose output had
   * no element that decodes, reads as 0 with no error, so it fires the
   * monitor exactly when the limit is 0 or below.
   */
  lemma FailedReportReadsAsZero(limit: int)
    ensures TotalTransfer(ZeroVnstat()) == Ok(0)
    ensures Triggers(TotalTransfer(ZeroVnstat()), limit) <==> limit <= 0
  {
  }

  // ----------------------------------------------------- the trigger rule

  /** Line 180: the action fires on a poll with no error and `n >= nlimit`. */
  predicate Triggers(o: IntResult, limit: int): (b: bool)
    ensures b ==> o.Ok?
    ensures o.Ok? && limit <= o.value ==> b
  {
    o.Ok? && o.value >= limit
  }

  /**
   * The tick at which the monitor fires, given what each tick's poll
   * returns: the first one that triggers, if any.
   */
  function FirstTrigger(polls: seq<IntResult>, limit: int): (r: Option<nat>)
    ensures r.Some? ==> r.value < |polls| && Triggers(polls[r.value], limit)
  {
    if polls == [] then None
    else if Triggers(polls[0], limit) then Some(0)
    else
      match FirstTrigger(polls[1..], limit)
      case None => None
      case Some(k) => Some(k + 1)
  }

  /**
   * `FirstTrigger` is pinned down completely: the tick it names triggers and
   * no earlier one does, and `None` means that no tick triggers.
   */
  lemma {:induction false} FirstTriggerIsFirst(polls: seq<IntResult>, limit: int)
    ensures var r := FirstTrigger(polls, limit);
            && (r.Some? ==> r.value < |polls| && Triggers(polls[r.value], limit))
            && (r.Some? ==> forall j | 0 <= j < r.value :: !Triggers(polls[j], limit))
            && (r.None? <==> forall j | 0 <= j < |polls| :: !Triggers(polls[j], limit))
  {
    if polls != [] && !Triggers(polls[0], limit) {
      var tail := polls[1..];
      FirstTriggerIsFirst(tail, limit);
      assert forall j | 1 <= j < |polls| :: polls[j] == tail[j - 1];
    }
  }

  /** A poll that failed to parse never fires, whatever the limit. */
  lemma {:induction false} ErrorsNeverFire(polls: seq<IntResult>, limit: int)
    requires forall j | 0 <= j < |polls| :: polls[j].Err?
    ensures FirstTrigger(polls, limit) == None
  {
    FirstTriggerIsFirst(polls, limit);
  }

  /**
   * Once the monitor has fired, later ticks are irrelevant: appending polls
   * after a prefix that fires does not change when it fires.
   */
  lemma {:induction false} FirstTriggerIgnoresLaterPolls(polls: seq<IntResult>, later: seq<IntResult>, limit: int)
    requires FirstTrigger(polls, limit).Some?
    ensures FirstTrigger(polls + later, limit) == FirstTrigger(polls, limit)
  {
    var all := polls + later;
    assert all[0] == polls[0];
    if !Triggers(polls[0], limit) {
      assert all[1..] == polls[1..] + later;
      FirstTriggerIgnoresLaterPolls(polls[1..], later, limit);
    }
  }

  /**
   * A prefix in which nothing fires only delays the trigger: the monitor then
   * fires where the rest of the polls would, shifted by the prefix's length.
   */
  lemma {:induction false} FirstTriggerAfterQuietPolls(quiet: seq<IntResult>, rest: seq<IntResult>, limit: int)
    requires FirstTrigger(quiet, limit).None?
    ensures FirstTrigger(rest, limit).None? ==> FirstTrigger(quiet + rest, limit).None?
    ensures FirstTrigger(rest, limit).Some? ==>
              FirstTrigger(quiet + rest, limit) == Some(|quiet| + FirstTrigger(rest, limit).value)
  {
    if quiet == [] {
      assert quiet + rest == rest;
    } else {
      var all := quiet + rest;
      assert all[0] == quiet[0];
      assert all[1..] == quiet[1..] + rest;
      FirstTriggerAfterQuietPolls(quiet[1..], rest, limit);
    }
  }

  /**
   * With a limit of 100: polls of 10, 50, 99 and 150 fire at the fourth
   * tick; polls of 10, 20 and 30 never fire.
   */
  lemma LimitOf100Examples()
    ensures FirstTrigger([Ok(10), Ok(50), Ok(99), Ok(150)], 100) == Some(3)
    ensures FirstTrigger([Ok(10), Ok(20), Ok(30)], 100) == None
  {
  }

  // ------------------------------------------------ the configured command

  /** What `exec.Command` is given: the executable and its arguments. */
  datatype Command = Command(exe: string, args: seq<string>)

  /**
   * Lines 175-177: the command line is split with `strings.Fields`, the
   * first field is the executable and the others are its arguments. The
   * code indexes the first field unchecked, so the command line must hold a
   * non-space character. No part is empty or holds white space, and nothing
   * but white space is lost.
   */
  function SplitCommand(scmd: string): (c: Command)
    requires !Strings.AllSpace(scmd)
    ensures [c.exe] + c.args == Strings.Fields(scmd)
    ensures c.exe != [] && Strings.NoSpace(c.exe)
    ensures forall i | 0 <= i < |c.args| :: c.args[i] != [] && Strings.NoSpace(c.args[i])
    ensures Strings.Concat([c.exe] + c.args) == Strings.RemoveSpaces(scmd)
    ensures Strings.JoinWith([c.exe] + c.args, ' ') == Strings.Normalize(scmd)
  {
    var fields := Strings.Fields(scmd);
    Strings.FieldsEmpty(scmd);
    Strings.FieldsConcat(scmd);
    Strings.JoinFields(scmd);
    assert [fields[0]] + fields[1..] == fields;
    Command(fields[0], fields[1..])
  }

  /** Round trip: a command written with single spaces splits back into its words. */
  lemma {:induction false} SplitCommandOfJoin(exe: string, args: seq<string>)
    requires exe != [] && Strings.NoSpace(exe)
    requires forall i | 0 <= i < |args| :: args[i] != [] && Strings.NoSpace(args[i])
    ensures !Strings.AllSpace(Strings.JoinWith([exe] + args, ' '))
    ensures SplitCommand(Strings.JoinWith([exe] + args, ' ')) == Command(exe, args)
  {
    var words := [exe] + args;
    assert forall i | 0 <= i < |words| :: words[i] != [] && Strings.NoSpace(words[i]) by {
      forall i | 0 <= i < |words| ensures words[i] != [] && Strings.NoSpace(words[i]) {
        if i > 0 { assert words[i] == args[i - 1]; }
      }
    }
    Strings.FieldsOfJoin(words);
    Strings.FieldsEmpty(Strings.JoinWith(words, ' '));
    assert words[1..] == args;
  }

  /** The default `-c` value, "shutdown", runs `shutdown` with no argument. */
  lemma {:induction false} DefaultCommand()
    ensures !Strings.AllSpace("shutdown")
    ensures SplitCommand("shutdown") == Command("shutdown", [])
  {
    assert Strings.NoSpace("shutdown");
    SplitCommandOfJoin("shutdown", []);
    assert Strings.JoinWith(["shutdown"] + [], ' ') == "shutdown";
  }

  // --------------------------------------------------------- the loop

  /** What the polls of successive ticks return, given what they decoded. */
  function Outcomes(reports: seq<Vnstat>): (r: seq<IntResult>)
    ensures |r| == |reports|
    ensures forall i | 0 <= i < |r| :: r[i] == TotalTransfer(reports[i])
    ensures forall i | 0 <= i < |r| :: r[i].Ok? ==> IsInt64(r[i].value)
  {
    seq(|reports|, i requires 0 <= i < |reports| => TotalTransfer(reports[i]))
  }

  /**
   * `monitorUsage` (lines 157-191), over the reports decoded at successive
   * ticks. It returns how many polls were made and the commands executed.
   * If some tick fires, the command runs exactly once and no poll follows
   * that tick; otherwise every supplied tick is polled and nothing runs (the
   * real loop would go on polling).
   */
  method MonitorUsage(reports: seq<Vnstat>, nlimit: int, scmd: string)
    returns (polls: nat, executed: seq<Command>)
    requires !Strings.AllSpace(scmd)
    ensures |executed| <= 1
    ensures match FirstTrigger(Outcomes(reports), nlimit)
            case Some(k) => polls == k + 1 && executed == [SplitCommand(scmd)]
            case None => polls == |reports| && executed == []
  {
    var cmd := SplitCommand(scmd);
    ghost var outcomes := Outcomes(reports);
    polls, executed := 0, [];
    while polls < |reports|
      invariant polls <= |reports|
      invariant executed == []
      invariant forall j | 0 <= j < polls :: !Triggers(outcomes[j], nlimit)
    {
      var n := TotalTransfer(reports[polls]);
      assert n == outcomes[polls];
      polls := polls + 1;
      if n.Ok? && n.value >= nlimit {
        // log "Bandwidth limit exceed", run the command, log its output
        executed := executed + [cmd];
        FirstTriggerIsFirst(outcomes, nlimit);
        return;
      }
      // log the current transfer, sleep five minutes
    }
    FirstTriggerIsFirst(outcomes, nlimit);
  }

  // ------------------------------------------------------ configuration

  const TwoTo64: int := 0x1_0000_0000_0000_0000

  /** Go's 64-bit `int` arithmetic: the result wraps around modulo 2^64. */
  function Wrap64(x: int): (r: int)
    ensures IsInt64(r)
    ensures (x - r) % TwoTo64 == 0
  {
    (x - MinInt64) % TwoTo64 + MinInt64
  }

  /** A 64-bit value congruent to `x` modulo 2^64 is `Wrap64(x)`. */
  lemma WrapUnique(x: int, r: int, k: int)
    requires IsInt64(r) && x == r + k * TwoTo64
    ensures Wrap64(x) == r
  {
    assert x - MinInt64 == k * TwoTo64 + (r - MinInt64);
  }

  /**
   * Line 208: the `-l` flag times 1024 times 1024, each product wrapping as
   * Go's `int` does. It equals the flag times 2^20 modulo 2^64, and is that
   * product exactly whenever it fits (the flag in [-2^43, 2^43)).
   */
  function LimitBytes(nLimit: int): (r: int)
    requires IsInt64(nLimit)
    ensures r == Wrap64(nLimit * 1048576)
    ensures -0x800_0000_0000 <= nLimit < 0x800_0000_0000 ==> r == nLimit * 1048576
  {
    var kib := Wrap64(nLimit * 1024);
    var k1 := (nLimit * 1024 - MinInt64) / TwoTo64;
    var k2 := (nLimit * 1048576 - MinInt64) / TwoTo64;
    assert nLimit * 1024 == kib + k1 * TwoTo64;
    assert kib * 1024 == Wrap64(nLimit * 1048576) + (k2 - 1024 * k1) * TwoTo64;
    WrapUnique(kib * 1024, Wrap64(nLimit * 1048576), k2 - 1024 * k1);
    assert -0x800_0000_0000 <= nLimit < 0x800_0000_0000 ==> Wrap64(nLimit * 1048576) == nLimit * 1048576 by {
      if -0x800_0000_0000 <= nLimit < 0x800_0000_0000 {
        WrapUnique(nLimit * 1048576, nLimit * 1048576, 0);
      }
    }
    Wrap64(kib * 1024)
  }

  /**
   * A `-l` of 2^43 wraps to the most negative `int`, so every poll that
   * parses fires the action. One of 2^44 wraps to 0, so a parsed poll fires
   * exactly when its value is not negative (a report with no month reads 0).
   */
  lemma WrappedLimitFiresOnAnyParse(report: Vnstat)
    ensures LimitBytes(0x800_0000_0000) == MinInt64
    ensures LimitBytes(0x1000_0000_0000) == 0
    ensures TotalTransfer(report).Ok? ==> Triggers(TotalTransfer(report), LimitBytes(0x800_0000_0000))
    ensures TotalTransfer(report).Ok? ==>
              (Triggers(TotalTransfer(report), LimitBytes(0x1000_0000_0000)) <==> TotalTransfer(report).value >= 0)
  {
  }

  /** The default `-l` value, 0x8FFFFFF, becomes 0x8FFFFFF * 2^20 with no wrap-around. */
  lemma DefaultLimit()
    ensures LimitBytes(0x8FFFFFF) == 0x8FFFFFF00000
  {
  }

  /**
   * Lines 205-208: the monitor starts only for a non-empty `-i` interface,
   * and is given the converted limit; what it then does is `MonitorUsage`
   * with that limit. The goroutine is modelled as a direct call.
   */
  method StartMonitor(iFace: string, nLimit: int, sCmd: string, reports: seq<Vnstat>)
    returns (started: bool, polls: nat, executed: seq<Command>)
    requires IsInt64(nLimit)
    requires iFace != [] ==> !Strings.AllSpace(sCmd)
    ensures started <==> iFace != []
    ensures !started ==> polls == 0 && executed == []
    ensures started ==>
              match FirstTrigger(Outcomes(reports), LimitBytes(nLimit))
              case Some(k) => polls == k + 1 && executed == [SplitCommand(sCmd)]
              case None => polls == |reports| && executed == []
  {
    started, polls, executed := false, 0, [];
    if iFace != [] {
      started := true;
      polls, executed := MonitorUsage(reports, LimitBytes(nLimit), sCmd);
    }
  }
}
