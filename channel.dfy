/**
 * The command channel to the bus daemon (`ebusTcp`).
 *
 * Each execution of a command yields one canned response from a fake
 * channel: a textual output, or an exception from the process call. A read
 * command is repeated, with a pause before each repetition, until its output
 * is not blank; any other command is executed once ("fire and forget").
 */
module Channel {

  /** The two command templates: the minimum-temperature read and its write. */
  datatype Command = ReadMin | SetMin(value: real)

  /** What one execution of a command produced. */
  datatype Exec = Output(text: string) | Raised

  /** How a call on the channel ended. `Exhausted` stands for the source's unbounded wait. */
  datatype Outcome = Returned(text: string) | Threw | Exhausted

  /** The retry applies to commands built from the read template. */
  predicate IsRead(c: Command)
  {
    c.ReadMin?
  }

  /** The characters JavaScript's `trim` removes: white space and line terminators. */
  predicate IsWhitespace(c: char)
  {
    || c == ' ' || c == '\t' || c == '\n' || c == '\r' || c == '\U{000B}' || c == '\U{000C}'
    || c == '\U{00A0}' || c == '\U{FEFF}' || c == '\U{1680}'
    || ('\U{2000}' <= c <= '\U{200A}')
    || c == '\U{2028}' || c == '\U{2029}' || c == '\U{202F}' || c == '\U{205F}' || c == '\U{3000}'
  }

  /** `text.trim() == ''`. */
  predicate IsBlank(text: string)
  {
    forall i :: 0 <= i < |text| ==> IsWhitespace(text[i])
  }

  /** A response that makes the read loop go round again. */
  predicate IsRetry(e: Exec)
  {
    e.Output? && IsBlank(e.text)
  }

  /** The outcome of the execution that ended the call. */
  function Settle(e: Exec): Outcome
  {
    match e
    case Output(t) => Returned(t)
    case Raised => Threw
  }

  /** The number of blank outputs before the first other response. */
  function LeadingBlanks(responses: seq<Exec>): (k: nat)
    ensures k <= |responses|
    ensures forall i :: 0 <= i < k ==> IsRetry(responses[i])
    ensures k < |responses| ==> !IsRetry(responses[k])
    decreases |responses|
  {
    if |responses| == 0 || !IsRetry(responses[0]) then 0
    else 1 + LeadingBlanks(responses[1..])
  }

  /** The outcome of the read loop, as a recursive specification. */
  function AwaitPresent(responses: seq<Exec>): Outcome
    decreases |responses|
  {
    if |responses| == 0 then Exhausted
    else if IsRetry(responses[0]) then AwaitPresent(responses[1..])
    else Settle(responses[0])
  }

  /** How many times the process call runs for `command`. */
  function Calls(command: Command, responses: seq<Exec>): (n: nat)
    ensures n <= |responses|
  {
    if |responses| == 0 then 0
    else if !IsRead(command) then 1
    else if LeadingBlanks(responses) == |responses| then |responses|
    else LeadingBlanks(responses) + 1
  }

  /** `n` copies of `c`. */
  function Repeat(c: Command, n: nat): (r: seq<Command>)
    ensures |r| == n && forall i :: 0 <= i < n ==> r[i] == c
  {
    seq(n, _ => c)
  }

  /**
   * The read loop waits for the first response that is not blank, and
   * pauses once per blank response before it.
   */
  lemma {:induction false} AwaitPresentIsFirstNonBlank(responses: seq<Exec>)
    ensures var k := LeadingBlanks(responses);
      AwaitPresent(responses) == if k == |responses| then Exhausted else Settle(responses[k])
    decreases |responses|
  {
    if |responses| > 0 && IsRetry(responses[0]) {
      AwaitPresentIsFirstNonBlank(responses[1..]);
    }
  }

  /**
   * The retry discipline of `ebusTcp` for `command`, where every execution
   * of the process call runs `executes`. Returns what the call ended with,
   * the commands executed in order, and the number of pauses.
   */
  method Exchange(command: Command, executes: Command, responses: seq<Exec>)
    returns (result: Outcome, executed: seq<Command>, pauses: nat)
    ensures executed == Repeat(executes, Calls(command, responses))
    ensures IsRead(command) ==> pauses == LeadingBlanks(responses) && result == AwaitPresent(responses)
    ensures !IsRead(command) ==> pauses == 0
    ensures !IsRead(command) ==> result == if |responses| == 0 then Exhausted else Settle(responses[0])
  {
    pauses := 0;
    if |responses| == 0 {
      return Exhausted, [], 0;
    }
    var ret := responses[0];
    executed := [executes];
    var i := 1;
    if IsRead(command) {
      while IsRetry(ret)
        invariant 1 <= i <= |responses|
        invariant ret == responses[i - 1]
        invariant pauses == i - 1
        invariant forall k :: 0 <= k < i - 1 ==> IsRetry(responses[k])
        invariant executed == Repeat(executes, i)
        decreases |responses| - i
      {
        pauses := pauses + 1;
        if i == |responses| {
          LeadingBlanksAll(responses);
          AwaitPresentIsFirstNonBlank(responses);
          return Exhausted, executed, pauses;
        }
        ret := responses[i];
        executed := executed + [executes];
        i := i + 1;
      }
      LeadingBlanksAt(responses, i - 1);
      AwaitPresentIsFirstNonBlank(responses);
    }
    result := Settle(ret);
  }

  lemma {:induction false} LeadingBlanksAll(responses: seq<Exec>)
    requires forall k :: 0 <= k < |responses| ==> IsRetry(responses[k])
    ensures LeadingBlanks(responses) == |responses|
    decreases |responses|
  {
    if |responses| > 0 {
      LeadingBlanksAll(responses[1..]);
    }
  }

  lemma {:induction false} LeadingBlanksAt(responses: seq<Exec>, j: nat)
    requires j < |responses| && !IsRetry(responses[j])
    requires forall k :: 0 <= k < j ==> IsRetry(responses[k])
    ensures LeadingBlanks(responses) == j
    decreases j
  {
    if j > 0 {
      LeadingBlanksAt(responses[1..], j - 1);
    }
  }

  /**
   * `ebusTcp` as written: whatever command it is given, the process call
   * runs the minimum-temperature read.
   */
  method EbusTcp(command: Command, responses: seq<Exec>)
    returns (result: Outcome, executed: seq<Command>, pauses: nat)
    ensures executed == Repeat(ReadMin, Calls(command, responses))
    ensures IsRead(command) ==> pauses == LeadingBlanks(responses) && result == AwaitPresent(responses)
    ensures !IsRead(command) ==> pauses == 0
    ensures !IsRead(command) ==> result == if |responses| == 0 then Exhausted else Settle(responses[0])
  {
    result, executed, pauses := Exchange(command, ReadMin, responses);
  }

  /** `ebusTcp` as evidently intended: the process call runs the given command. */
  method EbusTcpFixed(command: Command, responses: seq<Exec>)
    returns (result: Outcome, executed: seq<Command>, pauses: nat)
    ensures executed == Repeat(command, Calls(command, responses))
    ensures IsRead(command) ==> pauses == LeadingBlanks(responses) && result == AwaitPresent(responses)
    ensures !IsRead(command) ==> pauses == 0
    ensures !IsRead(command) ==> result == if |responses| == 0 then Exhausted else Settle(responses[0])
  {
    result, executed, pauses := Exchange(command, command, responses);
  }

  /** As written, a write command never reaches the daemon: the one execution is the read. */
  lemma WriteNeverSent(v: real, responses: seq<Exec>)
    requires |responses| > 0
    ensures Repeat(ReadMin, Calls(SetMin(v), responses)) == [ReadMin]
    ensures SetMin(v) !in Repeat(ReadMin, Calls(SetMin(v), responses))
  {
  }

  /** As intended, a write command is executed exactly once, without retry. */
  lemma WriteSentOnce(v: real, responses: seq<Exec>)
    requires |responses| > 0
    ensures Repeat(SetMin(v), Calls(SetMin(v), responses)) == [SetMin(v)]
  {
  }

  /** A read answered blank three times, then with a value, pauses three times. */
  lemma ThreeBlanksThenValue(value: string)
    requires !IsBlank(value)
    ensures var responses := [Output(""), Output(" "), Output("\n"), Output(value)];
      && LeadingBlanks(responses) == 3
      && AwaitPresent(responses) == Returned(value)
      && Calls(ReadMin, responses) == 4
  {
    var responses := [Output(""), Output(" "), Output("\n"), Output(value)];
    assert IsRetry(responses[0]) && IsRetry(responses[1]) && IsRetry(responses[2]);
    LeadingBlanksAt(responses, 3);
    AwaitPresentIsFirstNonBlank(responses);
  }
}
