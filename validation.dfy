/**
 * The live URL check in the settings dialog. Every check launched, and every
 * edit that blanks the field, takes a new generation number; a finished
 * check reports only if its generation is still the latest, and the dialog
 * shows a report only if it still is on arrival. The check itself asks for
 * the URL and calls it valid when the answer is a 200 whose body holds a
 * result tag.
 */
module Validation {
  import opened Text
  import opened Status
  import opened Url
  import opened Parser
  import opened Polling
  import opened Settings

  /** A check's verdict on the outcome of its one request: valid exactly
      when the status is 200 and the buffered body contains `<result` or
      `<r>`. Any failure before that, including an unreadable status, is
      invalid. */
  function Verdict(o: Outcome): (valid: bool)
    ensures valid <==>
      o.Reply? && o.status == 200 &&
      (Contains(Body(o.chunks), "<result") || Contains(Body(o.chunks), "<r>"))
  {
    if o.Reply? && o.status == 200 then
      var body := Body(o.chunks);
      FindFromStart(body, "<result");
      FindFromStart(body, "<r>");
      FindFrom(body, "<result", 0).Some? || FindFrom(body, "<r>", 0).Some?
    else false
  }

  /** Any 200 body the poller reads as Success or Fail passes the check. */
  lemma RecognisedPasses(chunks: seq<string>)
    requires ParseXmlResponse(Body(chunks)).result != Invalid
    ensures Verdict(Reply(200, chunks))
  {
    ParseRecognisedNeedsTag(Body(chunks));
  }

  /** The check is looser than the poller: a body with an opening `<r>` and
      no closing tag passes it, while the poller reads it as Invalid. */
  lemma CheckLooserThanPoller()
    ensures Verdict(Reply(200, ["<r>"]))
    ensures ParseXmlResponse(Body(["<r>"])).result == Invalid
  {
    assert Body(["<r>"]) == "<r>" by {
      assert CStr("<r>") == "<r>";
      assert Kept(["<r>"], 0) == ["<r>"];
    }
    assert IsAt("<r>", "<r>", 0);
    assert FindFrom("<r>", "<r>", 0) == Some(0);
    ParseUnclosedShortTag("<r>", 0);
  }

  /** The field holds nothing but whitespace: skipping leading whitespace
      reaches the end of the (at most 511-character) text. */
  function BlankField(text: string): (b: bool)
    ensures b <==> AllSpace(Truncate(text, UrlMax))
  {
    var t := Truncate(text, UrlMax);
    TrimEmptyIffAllSpace(t);
    TrimLeft(t) == []
  }

  /** What the status line beside the URL field shows. */
  datatype Display = Blank | Checking | Passed | Failed

  function DisplayText(d: Display): string {
    match d
    case Blank => ""
    case Checking => "Checking..."
    case Passed => "Valid"
    case Failed => "Invalid"
  }

  /** A check in flight: the URL it asks for and the generation it was
      launched with. */
  datatype Launch = Launch(url: string, gen: nat)

  /** A finished check's message to the dialog. */
  datatype Report = Report(gen: nat, valid: bool)

  /** Every launched generation is at most the counter, every check in
      flight was launched with its URL, the checks in flight are in launch
      order, and every report comes from a launched check. */
  ghost predicate Consistent(gen: nat, running: seq<Launch>, queue: seq<Report>, launched: map<nat, string>) {
    (forall k :: k in launched ==> 0 < k <= gen) &&
    (forall i :: 0 <= i < |running| ==>
      running[i].gen in launched && launched[running[i].gen] == running[i].url) &&
    (forall i, j :: 0 <= i < j < |running| ==> running[i].gen < running[j].gen) &&
    (forall i :: 0 <= i < |queue| ==> queue[i].gen in launched)
  }

  /** Taking a new generation keeps the state consistent and leaves every
      check in flight and every report behind it. */
  lemma BumpStales(gen: nat, running: seq<Launch>, queue: seq<Report>, launched: map<nat, string>)
    requires Consistent(gen, running, queue, launched)
    ensures Consistent(gen + 1, running, queue, launched)
    ensures forall i :: 0 <= i < |queue| ==> queue[i].gen < gen + 1
    ensures forall i :: 0 <= i < |running| ==> running[i].gen < gen + 1
  {
  }

  /** Launching a check under the next generation keeps the state
      consistent. */
  lemma LaunchKeeps(gen: nat, running: seq<Launch>, queue: seq<Report>, launched: map<nat, string>, u: string)
    requires Consistent(gen, running, queue, launched)
    ensures Consistent(gen + 1, running + [Launch(u, gen + 1)], queue, launched[gen + 1 := u])
    ensures forall i :: 0 <= i < |queue| ==> queue[i].gen < gen + 1
    ensures forall i :: 0 <= i < |running| ==> running[i].gen < gen + 1
  {
    BumpStales(gen, running, queue, launched);
  }

  class Validator {
    /** The shared generation counter. */
    var gen: nat
    var display: Display
    /** The 500 ms debounce timer is running. */
    var debouncePending: bool
    /** Checks launched and not yet finished, oldest first. */
    var running: seq<Launch>
    /** Reports posted and not yet handled, oldest first. */
    var queue: seq<Report>
    /** The URL each launched generation asked for. */
    ghost var launched: map<nat, string>

    ghost predicate Valid()
      reads this
    {
      Consistent(gen, running, queue, launched)
    }

    /** Nothing launched, nothing shown. */
    constructor ()
      ensures Valid() && gen == 0 && display == Blank && !debouncePending
      ensures running == [] && queue == [] && launched == map[]
    {
      gen := 0;
      display := Blank;
      debouncePending := false;
      running := [];
      queue := [];
      launched := map[];
    }

    /** Launches a check of `url` (cut to 511 characters) under a new
        generation; every earlier check and report becomes stale. */
    method StartValidation(url: string)
      requires Valid()
      modifies this
      ensures Valid() && gen == old(gen) + 1
      ensures running == old(running) + [Launch(Truncate(url, UrlMax), gen)]
      ensures launched == old(launched)[gen := Truncate(url, UrlMax)]
      ensures queue == old(queue) && display == old(display) && debouncePending == old(debouncePending)
      ensures forall i :: 0 <= i < |queue| ==> queue[i].gen < gen
      ensures forall i :: 0 <= i < |old(running)| ==> running[i].gen < gen
    {
      var u := Truncate(url, UrlMax);
      LaunchKeeps(gen, running, queue, launched, u);
      gen := gen + 1;
      running := running + [Launch(u, gen)];
      launched := launched[gen := u];
    }

    /** The dialog opens on the configured URL: the status line is cleared
        and, when there is a URL, shows "Checking..." while it is checked. */
    method Open(configUrl: string)
      requires Valid()
      modifies this
      ensures Valid() && queue == old(queue) && debouncePending == old(debouncePending)
      ensures configUrl == [] ==>
        display == Blank && gen == old(gen) && running == old(running) && launched == old(launched)
      ensures configUrl != [] ==>
        display == Checking && gen == old(gen) + 1 &&
        running == old(running) + [Launch(Truncate(configUrl, UrlMax), gen)]
    {
      display := Blank;
      if configUrl != [] {
        display := Checking;
        StartValidation(configUrl);
      }
    }

    /** The URL field changed to `text`. A blank field clears the status
        line, stops the timer and takes a new generation so that no pending
        check can report; otherwise the status line shows "Checking..." and
        the timer restarts. */
    method Edit(text: string)
      requires Valid()
      modifies this
      ensures Valid() && running == old(running) && queue == old(queue) && launched == old(launched)
      ensures BlankField(text) ==>
        display == Blank && !debouncePending && gen == old(gen) + 1 &&
        (forall i :: 0 <= i < |queue| ==> queue[i].gen < gen) &&
        (forall i :: 0 <= i < |running| ==> running[i].gen < gen)
      ensures !BlankField(text) ==>
        display == Checking && debouncePending && gen == old(gen)
    {
      var blank := BlankField(text);
      if blank {
        BumpStales(gen, running, queue, launched);
        display := Blank;
        debouncePending := false;
        gen := gen + 1;
      } else {
        display := Checking;
        debouncePending := true;
      }
    }

    /** The debounce timer fired with `text` in the field: the timer stops
        and the trimmed URL, if any, is checked. */
    method DebounceFired(text: string)
      requires Valid()
      modifies this
      ensures Valid() && !debouncePending && queue == old(queue) && display == old(display)
      ensures FieldUrl(text) == [] ==> gen == old(gen) && running == old(running)
      ensures FieldUrl(text) != [] ==>
        gen == old(gen) + 1 && running == old(running) + [Launch(FieldUrl(text), gen)]
    {
      debouncePending := false;
      var url := FieldUrl(text);
      if url != [] {
        assert Truncate(url, UrlMax) == url;
        StartValidation(url);
      }
    }

    /** OK, Cancel and closing the dialog stop the timer. */
    method Close()
      modifies this
      ensures !debouncePending
      ensures gen == old(gen) && display == old(display) && running == old(running)
      ensures queue == old(queue) && launched == old(launched)
    {
      debouncePending := false;
    }

    /** Check `i` finished with `outcome`. It posts its verdict only when its
        generation is still the latest, which only the newest check in flight
        can be. */
    method Finish(i: nat, outcome: Outcome)
      requires Valid() && i < |running|
      modifies this
      ensures Valid() && gen == old(gen) && display == old(display)
      ensures launched == old(launched) && debouncePending == old(debouncePending)
      ensures running == old(running[..i] + running[i + 1..])
      ensures old(running[i].gen) == gen ==> queue == old(queue) + [Report(gen, Verdict(outcome))]
      ensures old(running[i].gen) != gen ==> queue == old(queue)
      ensures i + 1 < |old(running)| ==> queue == old(queue)
    {
      var l := running[i];
      if i + 1 < |running| {
        assert l.gen < running[|running| - 1].gen;
      }
      if l.gen == gen {
        queue := queue + [Report(l.gen, Verdict(outcome))];
      }
      running := running[..i] + running[i + 1..];
    }

    /** The dialog handles the oldest report: it shows "Valid" or "Invalid"
        only when the report's generation is still the latest, and then that
        generation was a launched check (no blank edit came after it). */
    method Deliver()
      requires Valid() && queue != []
      modifies this
      ensures Valid() && gen == old(gen) && running == old(running) && launched == old(launched)
      ensures debouncePending == old(debouncePending)
      ensures queue == old(queue[1..])
      ensures old(queue[0].gen) == gen ==> display == if old(queue[0].valid) then Passed else Failed
      ensures old(queue[0].gen) != gen ==> display == old(display)
      ensures old(queue[0].gen) == gen ==> gen in launched
    {
      var r := queue[0];
      if r.gen == gen {
        display := if r.valid then Passed else Failed;
      }
      queue := queue[1..];
    }
  }
}
