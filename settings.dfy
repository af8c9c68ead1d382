/**
 * The settings dialog as a form: what it shows for the current
 * configuration, and what pressing OK turns the edited form into. The URL
 * is trimmed and must not be blank, the interval comes from a three-entry
 * list, and a history limit that reads as a number is clamped to
 * [10, 10000].
 */
module Settings {
  import opened Text
  import opened Url
  import opened History

  /** The refresh intervals the list offers, in seconds, in list order. */
  const Intervals: seq<int> := [60, 120, 300]

  /** The configuration the dialog edits. */
  datatype Config = Config(url: string, interval: int, logging: bool, historyLimit: nat)

  /** The dialog's controls: the URL text, the selected list row, the logging
      box and the history-limit field, none when it does not read as a
      number. */
  datatype Form = Form(urlText: string, selection: int, logging: bool, historyField: Option<nat>)

  /** What OK does: refuses a blank URL, keeping the dialog open with nothing
      changed, or stores the new configuration; `resized` says the history
      ring is re-sized to the new limit. */
  datatype Submission = BlankUrl | Stored(config: Config, resized: bool)

  /** The row selected for an interval; an interval not in the list selects
      the first row. */
  function SelectionFor(interval: int): (sel: nat)
    ensures sel < |Intervals|
    ensures interval in Intervals ==> Intervals[sel] == interval
    ensures interval !in Intervals ==> sel == 0
  {
    if interval == 120 then 1 else if interval == 300 then 2 else 0
  }

  /** The interval for a row; no valid row means the first one. */
  function IntervalAt(sel: int): (i: int)
    ensures i in Intervals
    ensures 0 <= sel < |Intervals| ==> i == Intervals[sel]
    ensures !(0 <= sel < |Intervals|) ==> i == Intervals[0]
  {
    Intervals[if 0 <= sel < |Intervals| then sel else 0]
  }

  /** The URL as the dialog reads it from the field: at most 511 characters,
      trimmed at both ends. */
  function FieldUrl(text: string): (u: string)
    ensures |u| <= UrlMax
    ensures u == [] <==> AllSpace(Truncate(text, UrlMax))
    ensures u != [] ==> !IsSpace(u[0]) && !IsSpace(u[|u| - 1])
    ensures var t := Truncate(text, UrlMax);
      exists i, j :: 0 <= i <= j <= |t| && u == t[i..j] && AllSpace(t[..i]) && AllSpace(t[j..])
  {
    var t := Truncate(text, UrlMax);
    TrimEmptyIffAllSpace(t);
    TrimIsInfix(t);
    Trim(t)
  }

  /** What the dialog shows when it opens on `c`. */
  function FormFor(c: Config): Form {
    Form(c.url, SelectionFor(c.interval), c.logging, Some(c.historyLimit))
  }

  /** Pressing OK on a form while the configuration is `current`. */
  function Submit(current: Config, f: Form): (r: Submission)
    ensures r == BlankUrl <==> AllSpace(Truncate(f.urlText, UrlMax))
    ensures r.Stored? ==>
      r.config.url == FieldUrl(f.urlText) &&
      r.config.interval in Intervals &&
      (0 <= f.selection < |Intervals| ==> r.config.interval == Intervals[f.selection]) &&
      (!(0 <= f.selection < |Intervals|) ==> r.config.interval == Intervals[0]) &&
      r.config.logging == f.logging &&
      r.resized == f.historyField.Some? &&
      (f.historyField.None? ==> r.config.historyLimit == current.historyLimit) &&
      (f.historyField.Some? ==> r.config.historyLimit == ClampCapacity(f.historyField.value)) &&
      (f.historyField.Some? ==> MinCapacity <= r.config.historyLimit <= MaxCapacity)
  {
    var url := FieldUrl(f.urlText);
    if url == [] then BlankUrl
    else
      Stored(
        Config(
          Truncate(url, UrlMax),
          IntervalAt(f.selection),
          f.logging,
          if f.historyField.Some? then ClampCapacity(f.historyField.value) else current.historyLimit),
        f.historyField.Some?)
  }

  /** The list selection round trip: an interval in the list selects its own
      row, and any other interval becomes 60 s when the dialog is confirmed. */
  lemma SelectionRoundTrip(interval: int)
    ensures IntervalAt(SelectionFor(interval)) == if interval in Intervals then interval else 60
  {
  }

  /** A configuration the dialog can produce: a trimmed, non-blank URL that
      fits the buffer, a listed interval and a limit in range. */
  predicate Storable(c: Config) {
    c.url != [] && |c.url| <= UrlMax && !IsSpace(c.url[0]) && !IsSpace(c.url[|c.url| - 1]) &&
    c.interval in Intervals && MinCapacity <= c.historyLimit <= MaxCapacity
  }

  /** Everything OK stores is storable. */
  lemma SubmitStorable(current: Config, f: Form)
    requires Submit(current, f).Stored?
    requires MinCapacity <= current.historyLimit <= MaxCapacity
    ensures Storable(Submit(current, f).config)
  {
  }

  /** Opening the dialog on a storable configuration and pressing OK without
      editing stores the same configuration again (and re-sizes the ring to
      the limit it already has). */
  lemma {:induction false} OpenSubmitUnchanged(c: Config)
    requires Storable(c)
    ensures Submit(c, FormFor(c)) == Stored(c, true)
  {
    FieldUrlOfStored(c.url);
    assert IntervalAt(SelectionFor(c.interval)) == c.interval;
  }

  /** A URL that is already trimmed and fits reads back from the field
      unchanged. */
  lemma FieldUrlOfStored(u: string)
    requires u != [] && |u| <= UrlMax && !IsSpace(u[0]) && !IsSpace(u[|u| - 1])
    ensures FieldUrl(u) == u && Truncate(u, UrlMax) == u
  {
    assert TrimLeft(u) == u;
    assert TrimRight(u) == u;
  }

  /** A blank URL is refused whatever else the form holds. */
  lemma BlankRefused(current: Config, f: Form)
    requires AllSpace(f.urlText)
    ensures Submit(current, f) == BlankUrl
  {
    var t := Truncate(f.urlText, UrlMax);
    assert forall i :: 0 <= i < |t| ==> t[i] == f.urlText[i];
  }
}
