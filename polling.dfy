/**
 * One refresh cycle: up to three attempts against the configured URL, each
 * ending in a transport outcome, with a pause only after a network error
 * that leaves attempts to spare. A non-200 status ends the cycle at once;
 * otherwise the body is read in chunks into a 4096-byte buffer and parsed,
 * and whatever the parser says is final.
 */
module Polling {
  import opened Text
  import opened Status
  import opened Parser

  const MaxAttempts: nat := 3

  /** Size of the response buffer, NUL included. */
  const ResponseBuffer: nat := 4096

  /** What one attempt ran into. */
  datatype Outcome =
      /** Session, connection, request, send or receive failed; the text is
          the diagnostic the attempt formed. */
      NetworkError(text: string)
      /** A response arrived but its status code could not be read. */
    | NoStatus
      /** A response with its status code and the body as the reads returned
          it, one chunk per read; an empty chunk ends the reading. */
    | Reply(status: nat, chunks: seq<string>)

  /** How a cycle ended. */
  datatype CycleResult = CycleResult(result: ApiResult, message: string, attempts: nat, sleeps: nat)

  // ---------------------------------------------------------------------
  // Body accumulation

  /** The chunks that make it into the buffer, reading on from a running byte
      total: a chunk is kept whole when the total stays under 4095 and dropped
      whole otherwise; an empty chunk stops the reading. */
  function Kept(chunks: seq<string>, total: nat): (r: seq<string>)
    ensures |r| <= |chunks|
    ensures forall i :: 0 <= i < |r| ==> r[i] != []
    decreases |chunks|
  {
    if chunks == [] || chunks[0] == [] then []
    else if total + |chunks[0]| < ResponseBuffer - 1 then [chunks[0]] + Kept(chunks[1..], total + |chunks[0]|)
    else Kept(chunks[1..], total)
  }

  /** Total length of some chunks. */
  function SumLen(cs: seq<string>): nat {
    if cs == [] then 0 else |cs[0]| + SumLen(cs[1..])
  }

  /** The chunks as `strcat` joins them: each stops at its first NUL. */
  function Joined(cs: seq<string>): (r: string)
    ensures |r| <= SumLen(cs)
    ensures forall i :: 0 <= i < |r| ==> r[i] != '\0'
  {
    if cs == [] then [] else CStr(cs[0]) + Joined(cs[1..])
  }

  /** The body text the parser gets: it fits the buffer with its
      terminating NUL and holds no NUL of its own. */
  function Body(chunks: seq<string>): (b: string)
    ensures |b| < ResponseBuffer - 1
    ensures forall i :: 0 <= i < |b| ==> b[i] != '\0'
  {
    KeptBounded(chunks, 0);
    Joined(Kept(chunks, 0))
  }

  lemma {:induction false} JoinedAppend(a: seq<string>, b: seq<string>)
    ensures Joined(a + b) == Joined(a) + Joined(b)
  {
    if a != [] {
      assert (a + b)[1..] == a[1..] + b;
      JoinedAppend(a[1..], b);
    } else {
      assert a + b == b;
    }
  }

  /** Reading on from a total under the limit, the kept chunks add at most
      enough bytes to reach 4094. */
  lemma {:induction false} KeptBounded(chunks: seq<string>, total: nat)
    requires total < ResponseBuffer - 1
    ensures total + SumLen(Kept(chunks, total)) < ResponseBuffer - 1
    decreases |chunks|
  {
    if chunks == [] || chunks[0] == [] {
    } else if total + |chunks[0]| < ResponseBuffer - 1 {
      KeptBounded(chunks[1..], total + |chunks[0]|);
      assert Kept(chunks, total)[1..] == Kept(chunks[1..], total + |chunks[0]|);
    } else {
      KeptBounded(chunks[1..], total);
    }
  }

  /** When the chunks before the first empty one add up to less than 4095
      bytes, none is dropped. */
  lemma {:induction false} KeptAllWhenSmall(chunks: seq<string>, total: nat)
    requires forall i :: 0 <= i < |chunks| ==> chunks[i] != []
    requires total + SumLen(chunks) < ResponseBuffer - 1
    ensures Kept(chunks, total) == chunks
    decreases |chunks|
  {
    if chunks != [] {
      KeptAllWhenSmall(chunks[1..], total + |chunks[0]|);
    }
  }

  /** `a` is `b` with some elements left out, the rest in their order. */
  predicate SubsequenceOf<T(==)>(a: seq<T>, b: seq<T>)
    decreases |b|
  {
    a == [] || (b != [] && ((a[0] == b[0] && SubsequenceOf(a[1..], b[1..])) || SubsequenceOf(a, b[1..])))
  }

  /** The kept chunks are chunks read, in the order read: dropping a chunk
      never reorders or alters the others. */
  lemma {:induction false} KeptIsSubsequence(chunks: seq<string>, total: nat)
    ensures SubsequenceOf(Kept(chunks, total), chunks)
    decreases |chunks|
  {
    if chunks != [] && chunks[0] != [] {
      if total + |chunks[0]| < ResponseBuffer - 1 {
        KeptIsSubsequence(chunks[1..], total + |chunks[0]|);
      } else {
        KeptIsSubsequence(chunks[1..], total);
      }
    }
  }

  /** A non-empty chunk that keeps the total under 4095 is appended whole. */
  lemma KeepStep(chunks: seq<string>, rest: seq<string>, total: nat, kept: seq<string>)
    requires rest != [] && rest[0] != [] && total + |rest[0]| < ResponseBuffer - 1
    requires Kept(chunks, 0) == kept + Kept(rest, total)
    ensures Kept(chunks, 0) == (kept + [rest[0]]) + Kept(rest[1..], total + |rest[0]|)
    ensures Joined(kept + [rest[0]]) == Joined(kept) + CStr(rest[0])
  {
    var more := Kept(rest[1..], total + |rest[0]|);
    assert kept + ([rest[0]] + more) == (kept + [rest[0]]) + more;
    JoinedAppend(kept, [rest[0]]);
  }

  /** Reading stops at an empty chunk or at the end, with nothing more kept. */
  lemma StopStep(chunks: seq<string>, rest: seq<string>, total: nat, kept: seq<string>)
    requires rest == [] || rest[0] == []
    requires Kept(chunks, 0) == kept + Kept(rest, total)
    ensures Kept(chunks, 0) == kept
  {
    assert kept + [] == kept;
  }

  /** Reads the chunks into the response buffer, as the receive loop does:
      `rest` holds the reads still to come. */
  method AccumulateBody(chunks: seq<string>) returns (response: string)
    ensures response == Body(chunks)
    ensures |response| < ResponseBuffer - 1
  {
    response := [];
    var total: nat := 0;
    ghost var kept: seq<string> := [];
    var rest := chunks;
    while rest != [] && rest[0] != []
      invariant total < ResponseBuffer - 1
      invariant Kept(chunks, 0) == kept + Kept(rest, total)
      invariant response == Joined(kept)
    {
      var chunk := rest[0];
      if total + |chunk| < ResponseBuffer - 1 {
        KeepStep(chunks, rest, total, kept);
        response := response + CStr(chunk);
        kept := kept + [chunk];
        total := total + |chunk|;
      }
      rest := rest[1..];
    }
    StopStep(chunks, rest, total, kept);
  }

  // ---------------------------------------------------------------------
  // The retry cycle

  /** What an attempt that got past the network yields. */
  function Answer(o: Outcome): (r: ApiResponse)
    requires !o.NetworkError?
    ensures |r.message| <= MessageMax
  {
    match o
    case NoStatus => ParseXmlResponse("")
    case Reply(status, chunks) =>
      if status != 200 then ApiResponse(Error, Truncate("HTTP " + NatToString(status), MessageMax))
      else ParseXmlResponse(Body(chunks))
  }

  /** 10 to the power `k`. */
  function Pow10(k: nat): nat {
    if k == 0 then 1 else 10 * Pow10(k - 1)
  }

  /** A number below 10^k prints in at most k digits. */
  lemma {:induction false} NatToStringLength(n: nat, k: nat)
    requires 1 <= k && n < Pow10(k)
    ensures |NatToString(n)| <= k
    decreases k
  {
    if n >= 10 {
      NatToStringLength(n / 10, k - 1);
    }
  }

  /** A status code read as a 32-bit number is reported whole. */
  lemma HttpStatusMessage(status: nat, chunks: seq<string>)
    requires status != 200 && status < 0x1_0000_0000
    ensures Answer(Reply(status, chunks)) == ApiResponse(Error, "HTTP " + NatToString(status))
  {
    assert Pow10(10) == 10000000000;
    NatToStringLength(status, 10);
  }

  /** The cycle from attempt `attempt` on, `sleeps` pauses taken so far:
      the attempts before the last one made all met network errors, the
      last one is the third or got past the network, and one pause
      separates each two attempts. */
  function CycleFrom(outcomes: seq<Outcome>, attempt: nat, sleeps: nat): (r: CycleResult)
    requires 1 <= attempt <= MaxAttempts && |outcomes| >= MaxAttempts
    ensures attempt <= r.attempts <= MaxAttempts
    ensures r.sleeps == sleeps + (r.attempts - attempt)
    ensures |r.message| <= MessageMax
    ensures forall i :: attempt - 1 <= i < r.attempts - 1 ==> outcomes[i].NetworkError?
    ensures r.attempts < MaxAttempts ==> !outcomes[r.attempts - 1].NetworkError?
    decreases MaxAttempts - attempt
  {
    match outcomes[attempt - 1]
    case NetworkError(text) =>
      if attempt < MaxAttempts then CycleFrom(outcomes, attempt + 1, sleeps + 1)
      else CycleResult(Error, Truncate(text, MessageMax), attempt, sleeps)
    case _ =>
      var a := Answer(outcomes[attempt - 1]);
      CycleResult(a.result, a.message, attempt, sleeps)
  }

  /** A whole cycle for the configured URL and the outcomes the attempts
      would meet: at most three attempts, a pause exactly between each two,
      so at most two, and a message of at most 255 characters; no URL makes
      no attempt. */
  function Cycle(url: string, outcomes: seq<Outcome>): (r: CycleResult)
    requires |outcomes| >= MaxAttempts
    ensures r.attempts <= MaxAttempts && r.sleeps <= MaxAttempts - 1
    ensures url == [] <==> r.attempts == 0
    ensures url != [] ==> 1 <= r.attempts && r.sleeps == r.attempts - 1
    ensures |r.message| <= MessageMax
  {
    if url == [] then CycleResult(Error, "API URL not configured", 0, 0)
    else CycleFrom(outcomes, 1, 0)
  }

  /** Runs one cycle: the attempt loop with its retry and stop rules. */
  method RunCycle(url: string, outcomes: seq<Outcome>) returns (r: CycleResult)
    requires |outcomes| >= MaxAttempts
    ensures r == Cycle(url, outcomes)
  {
    if |url| == 0 {
      return CycleResult(Error, "API URL not configured", 0, 0);
    }
    var finalResult := Error;
    var finalMessage := "Unknown error";
    var sleeps := 0;
    var attempt := 1;
    while attempt <= MaxAttempts
      invariant 1 <= attempt <= MaxAttempts
      invariant sleeps == attempt - 1
      invariant CycleFrom(outcomes, attempt, sleeps) == Cycle(url, outcomes)
    {
      var o := outcomes[attempt - 1];
      if o.NetworkError? {
        if attempt < MaxAttempts {
          sleeps := sleeps + 1;
          attempt := attempt + 1;
          continue;
        }
        finalMessage := Truncate(o.text, MessageMax);
        finalResult := Error;
        break;
      }
      if o.Reply? && o.status != 200 {
        finalResult := Error;
        finalMessage := Truncate("HTTP " + NatToString(o.status), MessageMax);
        break;
      }
      var response := "";
      if o.Reply? {
        response := AccumulateBody(o.chunks);
      }
      var parsed := ParseXmlResponse(response);
      finalResult := parsed.result;
      finalMessage := Truncate(parsed.message, MessageMax);
      break;
    }
    r := CycleResult(finalResult, finalMessage, attempt, sleeps);
  }

  // ---------------------------------------------------------------------
  // What a cycle can end in

  /** Index of the first attempt that got past the network, if any. */
  function FirstAnswered(outcomes: seq<Outcome>): (k: Option<nat>)
    requires |outcomes| >= MaxAttempts
    ensures k.Some? ==> k.value < MaxAttempts && !outcomes[k.value].NetworkError?
    ensures forall i :: 0 <= i < MaxAttempts && (k.None? || i < k.value) ==> outcomes[i].NetworkError?
  {
    if !outcomes[0].NetworkError? then Some(0)
    else if !outcomes[1].NetworkError? then Some(1)
    else if !outcomes[2].NetworkError? then Some(2)
    else None
  }

  lemma {:induction false} CycleFromAnswered(outcomes: seq<Outcome>, attempt: nat, k: nat)
    requires |outcomes| >= MaxAttempts && 1 <= attempt <= k + 1 <= MaxAttempts
    requires !outcomes[k].NetworkError?
    requires forall i :: attempt - 1 <= i < k ==> outcomes[i].NetworkError?
    ensures CycleFrom(outcomes, attempt, attempt - 1) ==
      CycleResult(Answer(outcomes[k]).result, Answer(outcomes[k]).message, k + 1, k)
    decreases MaxAttempts - attempt
  {
    if attempt - 1 < k {
      CycleFromRetry(outcomes, attempt, attempt - 1);
      CycleFromAnswered(outcomes, attempt + 1, k);
    } else {
      CycleFromAt(outcomes, attempt, attempt - 1);
    }
  }

  /** A network error before the last attempt moves on to the next one. */
  lemma CycleFromRetry(outcomes: seq<Outcome>, attempt: nat, sleeps: nat)
    requires |outcomes| >= MaxAttempts && 1 <= attempt < MaxAttempts
    requires outcomes[attempt - 1].NetworkError?
    ensures CycleFrom(outcomes, attempt, sleeps) == CycleFrom(outcomes, attempt + 1, sleeps + 1)
  {
  }

  /** An attempt that got past the network ends the cycle with its answer. */
  lemma CycleFromAt(outcomes: seq<Outcome>, attempt: nat, sleeps: nat)
    requires |outcomes| >= MaxAttempts && 1 <= attempt <= MaxAttempts
    requires !outcomes[attempt - 1].NetworkError?
    ensures var a := Answer(outcomes[attempt - 1]);
      CycleFrom(outcomes, attempt, sleeps) == CycleResult(a.result, a.message, attempt, sleeps)
  {
  }

  lemma {:induction false} CycleFromUnanswered(outcomes: seq<Outcome>, attempt: nat)
    requires |outcomes| >= MaxAttempts && 1 <= attempt <= MaxAttempts
    requires forall i :: attempt - 1 <= i < MaxAttempts ==> outcomes[i].NetworkError?
    ensures CycleFrom(outcomes, attempt, attempt - 1) ==
      CycleResult(Error, Truncate(outcomes[MaxAttempts - 1].text, MessageMax), MaxAttempts, MaxAttempts - 1)
    decreases MaxAttempts - attempt
  {
    if attempt < MaxAttempts {
      CycleFromUnanswered(outcomes, attempt + 1);
    }
  }

  /** A configured cycle makes attempts until one gets past the network,
      pausing once between each two; that attempt's answer is final: a
      non-200 status gives Error "HTTP <code>", anything else the parse of
      the body ("Empty response" when no status was read). With three
      network errors it ends in Error with the last error's text, after
      three attempts and two pauses. An unconfigured URL makes no attempt. */
  lemma CycleOutcome(url: string, outcomes: seq<Outcome>)
    requires |outcomes| >= MaxAttempts
    ensures var r := Cycle(url, outcomes);
      var k := FirstAnswered(outcomes);
      && (url == [] ==> r == CycleResult(Error, "API URL not configured", 0, 0))
      && (url != [] && k.Some? ==>
            r == CycleResult(Answer(outcomes[k.value]).result, Answer(outcomes[k.value]).message, k.value + 1, k.value))
      && (url != [] && k.None? ==>
            r == CycleResult(Error, Truncate(outcomes[MaxAttempts - 1].text, MessageMax), MaxAttempts, MaxAttempts - 1))
  {
    if url != [] {
      var k := FirstAnswered(outcomes);
      if k.Some? {
        CycleFromAnswered(outcomes, 1, k.value);
      } else {
        CycleFromUnanswered(outcomes, 1);
      }
    }
  }

  /** A cycle ends in Error only from the network, a non-200 status or a
      missing URL: the parser never reports Error. */
  lemma ErrorOnlyWithoutParse(url: string, outcomes: seq<Outcome>)
    requires |outcomes| >= MaxAttempts
    ensures var r := Cycle(url, outcomes);
      var k := FirstAnswered(outcomes);
      r.result == Error <==>
        url == [] || k.None? || (outcomes[k.value].Reply? && outcomes[k.value].status != 200)
  {
    CycleOutcome(url, outcomes);
  }

  /** Only network errors are retried: an attempt that gets a status, any
      status, is the last one. */
  lemma AnsweredIsLast(url: string, outcomes: seq<Outcome>, i: nat)
    requires |outcomes| >= MaxAttempts && url != []
    requires i < MaxAttempts && !outcomes[i].NetworkError?
    ensures Cycle(url, outcomes).attempts <= i + 1
  {
    CycleOutcome(url, outcomes);
  }
}
