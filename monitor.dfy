/**
 * The monitor's current status and what a new status does to it: whether a
 * history entry is written, the refresh period the timer is set to, and the
 * tray tooltip text.
 */
module Monitor {
  import opened Text
  import opened Status
  import opened History
  import opened HistoryRing

  /** Refresh period after anything but Success, in seconds. */
  const RetryPeriod: nat := 10

  /** Refresh period until configured otherwise, in seconds. */
  const DefaultInterval: nat := 60

  /** Room in the tooltip buffer, not counting the NUL. */
  const TooltipMax: nat := 127

  /** Longest tooltip the tray shows before it is cut with "...". */
  const TooltipShown: nat := 63

  /** A change is recorded when the result changed, or when the message
      changed and the new result is not Success. */
  function ShouldRecord(curResult: ApiResult, curMessage: string, result: ApiResult, message: string): (rec: bool)
    ensures rec ==> result != curResult || message != curMessage
    ensures result != curResult ==> rec
    ensures result == curResult && result == Success ==> !rec
    ensures result == curResult && result != Success ==> (rec <==> message != curMessage)
  {
    result != curResult || (message != curMessage && result != Success)
  }

  /** Refresh period the timer gets after a status update. */
  function PeriodAfter(result: ApiResult, configured: nat): nat {
    if result == Success then configured else RetryPeriod
  }

  /** Reporting the same status twice records it at most once. */
  lemma RepeatNotRecorded(result: ApiResult, message: string)
    requires |message| <= MessageMax
    ensures !ShouldRecord(result, Truncate(message, MessageMax), result, message)
  {
  }

  /** Under Success, message changes alone are not recorded; under any other
      result they are. */
  lemma MessageOnlyChange(result: ApiResult, curMessage: string, message: string)
    requires message != curMessage
    ensures ShouldRecord(result, curMessage, result, message) <==> result != Success
  {
  }

  /** The state starts as Error with an empty message, so the first cycle is
      recorded unless it too ends in Error with an empty message. */
  lemma FirstObservation(result: ApiResult, message: string)
    ensures ShouldRecord(Error, "", result, message) <==> result != Error || message != ""
  {
  }

  // ---------------------------------------------------------------------
  // Tooltip

  /** "Updated N second(s) ago". */
  function ElapsedText(elapsed: nat): string {
    "Updated " + NatToString(elapsed) + (if elapsed == 1 then " second ago" else " seconds ago")
  }

  /** The elapsed text reads back as "Updated ", the seconds in decimal, and
      " second ago" for one second or " seconds ago" otherwise. */
  lemma ElapsedTextReads(elapsed: nat)
    ensures var t := ElapsedText(elapsed);
      |t| >= 20 && t[..8] == "Updated " && LeadingNumber(t[8..]) == elapsed &&
      (elapsed == 1 ==> t[|t| - 11..] == " second ago") &&
      (elapsed != 1 ==> t[|t| - 12..] == " seconds ago")
  {
    var unit := if elapsed == 1 then " second ago" else " seconds ago";
    var t := ElapsedText(elapsed);
    assert t[8..] == NatToString(elapsed) + unit;
    LeadingNumberOfNatToString(elapsed, unit);
  }

  /** The tooltip for a status: a fixed text for Error and Invalid,
      otherwise the elapsed time and the message on a second line, cut to
      127 characters; anything over 63 characters is cut to 60 plus "...". */
  function TooltipText(result: ApiResult, message: string, elapsed: nat): (t: string)
    ensures |t| <= TooltipShown
  {
    var full :=
      if result == Error then "Unable to connect to API!"
      else if result == Invalid then "API response incorrect!"
      else
        var base := Truncate(ElapsedText(elapsed), TooltipMax);
        if |message| > 0 then Truncate(Truncate(base + "\n", TooltipMax) + message, TooltipMax)
        else base;
    if |full| > TooltipShown then full[..60] + "..." else full
  }

  /** The two-line text the tooltip starts from for Success and Fail. */
  function FullTooltip(message: string, elapsed: nat): (f: string)
    ensures var e := ElapsedText(elapsed);
      |f| >= |e| && f[..|e|] == e &&
      (message == [] ==> f == e) &&
      (message != [] ==> |f| > |e| && f[|e|] == '\n' && f[|e| + 1..] == message)
  {
    ElapsedText(elapsed) + (if message == [] then "" else "\n" + message)
  }

  /** Cutting the cut text again cuts the whole. */
  lemma TruncateAppend(a: string, b: string, n: nat)
    ensures Truncate(Truncate(a, n) + b, n) == Truncate(a + b, n)
  {
    if |a| > n {
      assert (Truncate(a, n) + b)[..n] == (a + b)[..n];
    }
  }

  /** For Success and Fail the tooltip is the two-line text when that fits
      in 63 characters, and its first 60 characters plus "..." otherwise. */
  lemma TooltipOfResult(result: ApiResult, message: string, elapsed: nat)
    requires result == Success || result == Fail
    ensures var f := FullTooltip(message, elapsed);
      TooltipText(result, message, elapsed) == if |f| <= TooltipShown then f else f[..60] + "..."
  {
    var e := ElapsedText(elapsed);
    var f := FullTooltip(message, elapsed);
    var full := Truncate(f, TooltipMax);
    if |message| > 0 {
      TruncateAppend(e, "\n", TooltipMax);
      TruncateAppend(e + "\n", message, TooltipMax);
      assert e + "\n" + message == f;
      assert Truncate(Truncate(Truncate(e, TooltipMax) + "\n", TooltipMax) + message, TooltipMax) == full;
    } else {
      assert e + "" == e;
    }
    if |f| > TooltipShown {
      assert full[..60] == f[..60];
    }
  }

  /** Error and Invalid show fixed texts whatever the message. */
  lemma TooltipOfProblem(message: string, elapsed: nat)
    ensures TooltipText(Error, message, elapsed) == "Unable to connect to API!"
    ensures TooltipText(Invalid, message, elapsed) == "API response incorrect!"
  {
  }

  // ---------------------------------------------------------------------
  // The monitor state

  class Monitor {
    var currentResult: ApiResult
    var currentMessage: string
    /** The configured refresh interval, in seconds. */
    var configInterval: nat
    /** The period of the running refresh timer, none before the first. */
    var timer: Option<nat>
    var tooltip: string
    const history: Ring

    predicate Valid()
      reads this, history
    {
      history.Valid()
    }

    /** The state at start-up: Error with an empty message. */
    constructor (h: Ring)
      requires h.Valid()
      ensures Valid() && history == h
      ensures currentResult == Error && currentMessage == ""
      ensures configInterval == DefaultInterval && timer == None
    {
      currentResult := Error;
      currentMessage := "";
      configInterval := DefaultInterval;
      timer := None;
      tooltip := "";
      history := h;
    }

    /** Takes in the status a cycle ended with: records the change when it
        is one, stores the new status, redraws the tooltip and sets the timer
        to the configured interval after Success and to 10 s otherwise.
        `stamp` is the time the change is recorded at; the update time is
        taken just before the tooltip is drawn, so it reports 0 seconds. */
    method UpdateStatus(result: ApiResult, message: string, stamp: nat)
      requires Valid()
      modifies this, history, history.buf
      ensures Valid() && history.buf == old(history.buf) && history.capacity == old(history.capacity)
      ensures currentResult == result && currentMessage == Truncate(message, MessageMax)
      ensures configInterval == old(configInterval)
      ensures timer == Some(PeriodAfter(result, configInterval))
      ensures tooltip == TooltipText(result, currentMessage, 0)
      ensures ShouldRecord(old(currentResult), old(currentMessage), result, message) && history.buf != null ==>
        history.View() == Pushed(old(history.View()),
          MakeEntry(stamp, old(currentResult), old(currentMessage), result, message), history.capacity)
      ensures !ShouldRecord(old(currentResult), old(currentMessage), result, message) || history.buf == null ==>
        history.View() == old(history.View())
    {
      if ShouldRecord(currentResult, currentMessage, result, message) {
        history.Add(stamp, currentResult, currentMessage, result, message);
      }
      currentResult := result;
      currentMessage := Truncate(message, MessageMax);
      tooltip := TooltipText(currentResult, currentMessage, 0);
      if result == Success {
        SetRefreshInterval(configInterval, false);
      } else {
        SetRefreshInterval(RetryPeriod, false);
      }
    }

    /** The tooltip timer: redraws the tooltip with the seconds since the
        last update, unless the status is Error or Invalid, whose fixed
        texts stay as they are. */
    method TooltipTick(elapsed: nat)
      modifies this
      ensures currentResult !in {Error, Invalid} ==> tooltip == TooltipText(currentResult, currentMessage, elapsed)
      ensures currentResult in {Error, Invalid} ==> tooltip == old(tooltip)
      ensures currentResult == old(currentResult) && currentMessage == old(currentMessage)
      ensures configInterval == old(configInterval) && timer == old(timer)
    {
      if currentResult != Error && currentResult != Invalid {
        tooltip := TooltipText(currentResult, currentMessage, elapsed);
      }
    }

    /** Sets the refresh period. A change the user asks for is stored as the
        configured interval and takes effect now only while the status is
        Success; otherwise it waits for the next Success. */
    method SetRefreshInterval(seconds: nat, isUserSetting: bool)
      modifies this
      ensures currentResult == old(currentResult) && currentMessage == old(currentMessage)
      ensures tooltip == old(tooltip)
      ensures configInterval == if isUserSetting then seconds else old(configInterval)
      ensures timer == if isUserSetting && currentResult != Success then old(timer) else Some(seconds)
    {
      if isUserSetting {
        configInterval := seconds;
        if currentResult != Success {
          return;
        }
      }
      timer := Some(seconds);
    }

    /** Restarts the timer with the configured interval, whatever the status. */
    method ApplyConfiguration()
      modifies this
      ensures timer == Some(configInterval)
      ensures currentResult == old(currentResult) && currentMessage == old(currentMessage)
      ensures configInterval == old(configInterval) && tooltip == old(tooltip)
    {
      timer := Some(configInterval);
    }
  }
}
