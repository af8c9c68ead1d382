/**
 * The status-change history as values: the entries, the list the user sees
 * (most recent first), what appending, resizing, saving and loading do to
 * that list, and the registry blob it is saved in.
 */
module History {
  import opened Text
  import opened Status

  /** One status change. The timestamp is the local time of the change; it is
      kept as an opaque number because nothing here looks inside it. */
  datatype Entry = Entry(
    stamp: nat,
    oldResult: ApiResult,
    newResult: ApiResult,
    oldMessage: string,
    newMessage: string)

  /** What a zero-filled slot holds before anything is written to it. */
  const BlankEntry := Entry(0, Error, Error, "", "")

  const MinCapacity: nat := 10
  const MaxCapacity: nat := 10000

  /** Bytes per saved record: a 16-byte timestamp, two 4-byte results and
      two 256-byte message buffers. */
  const RecordSize: nat := 536

  /** The capacity actually used for a requested one. */
  function ClampCapacity(requested: int): (c: nat)
    ensures MinCapacity <= c <= MaxCapacity
    ensures MinCapacity <= requested <= MaxCapacity ==> c == requested
    ensures requested < MinCapacity ==> c == MinCapacity
    ensures requested > MaxCapacity ==> c == MaxCapacity
  {
    if requested < MinCapacity then MinCapacity
    else if requested > MaxCapacity then MaxCapacity
    else requested
  }

  /** The entry written for a change, with both messages cut to the buffer size. */
  function MakeEntry(stamp: nat, oldResult: ApiResult, oldMessage: string,
                     newResult: ApiResult, newMessage: string): (e: Entry)
    ensures e.stamp == stamp && e.oldResult == oldResult && e.newResult == newResult
    ensures |e.oldMessage| <= MessageMax && |e.oldMessage| <= |oldMessage| && e.oldMessage == oldMessage[..|e.oldMessage|]
    ensures |e.newMessage| <= MessageMax && |e.newMessage| <= |newMessage| && e.newMessage == newMessage[..|e.newMessage|]
    ensures |oldMessage| <= MessageMax ==> e.oldMessage == oldMessage
    ensures |newMessage| <= MessageMax ==> e.newMessage == newMessage
    ensures |oldMessage| > MessageMax ==> e.oldMessage == oldMessage[..MessageMax]
    ensures |newMessage| > MessageMax ==> e.newMessage == newMessage[..MessageMax]
  {
    Entry(stamp, oldResult, newResult, Truncate(oldMessage, MessageMax), Truncate(newMessage, MessageMax))
  }

  function Min(a: nat, b: nat): nat {
    if a <= b then a else b
  }

  /** The first `n` elements, or all of them when there are fewer. */
  function Take<T>(s: seq<T>, n: nat): (r: seq<T>)
    ensures |r| == Min(|s|, n) && r == s[..|r|]
  {
    if |s| <= n then s else s[..n]
  }

  function Reverse<T>(s: seq<T>): (r: seq<T>)
    ensures |r| == |s|
    ensures forall i :: 0 <= i < |s| ==> r[i] == s[|s| - 1 - i]
  {
    if s == [] then [] else Reverse(s[1..]) + [s[0]]
  }

  // ---------------------------------------------------------------------
  // The visible list, most recent first

  /** The list after one append to a ring of capacity `cap`: the new entry
      comes first and, when the ring is full, the oldest one falls off. */
  function Pushed(view: seq<Entry>, e: Entry, cap: nat): (r: seq<Entry>)
    requires cap > 0
    ensures |r| == Min(|view| + 1, cap)
    ensures r[0] == e && r[1..] == view[..|r| - 1]
  {
    Take([e] + view, cap)
  }

  /** The list after appending `es` in order: the last one appended shows
      first, and the list grows by one per append up to the capacity. */
  function Appended(view: seq<Entry>, es: seq<Entry>, cap: nat): (r: seq<Entry>)
    requires cap > 0
    ensures es != [] ==> |r| == Min(|view| + |es|, cap) && r[0] == es[|es| - 1]
    decreases |es|
  {
    if es == [] then view else Pushed(Appended(view, es[..|es| - 1], cap), es[|es| - 1], cap)
  }

  /** Cutting twice is cutting once, after a new first element. */
  lemma TakePushed(x: Entry, s: seq<Entry>, cap: nat)
    requires cap > 0
    ensures Take([x] + Take(s, cap), cap) == Take([x] + s, cap)
  {
    var l := Take([x] + s, cap);
    var r := Take([x] + Take(s, cap), cap);
    assert |l| == |r|;
    forall i | 0 <= i < |l| ensures l[i] == r[i] {
      if i > 0 {
        assert l[i] == s[i - 1];
      }
    }
  }

  /** Appending is putting the appended entries, newest first, in front of
      the list and keeping at most `cap`. */
  lemma {:induction false} AppendedIsTake(view: seq<Entry>, es: seq<Entry>, cap: nat)
    requires cap > 0
    requires |view| <= cap
    ensures Appended(view, es, cap) == Take(Reverse(es) + view, cap)
    decreases |es|
  {
    if es == [] {
      assert Reverse(es) + view == view;
    } else {
      var init := es[..|es| - 1];
      var last := es[|es| - 1];
      var rest := Reverse(init) + view;
      AppendedIsTake(view, init, cap);
      assert Appended(view, es, cap) == Take([last] + Take(rest, cap), cap);
      TakePushed(last, rest, cap);
      ReverseLast(es);
      assert [last] + rest == Reverse(es) + view;
    }
  }

  /** Reversing puts the last element first. */
  lemma {:induction false} ReverseLast<T>(s: seq<T>)
    requires s != []
    ensures Reverse(s) == [s[|s| - 1]] + Reverse(s[..|s| - 1])
    decreases |s|
  {
    if |s| > 1 {
      var init := s[..|s| - 1];
      ReverseLast(s[1..]);
      assert s[1..][..|s| - 2] == init[1..];
      assert Reverse(init) == Reverse(init[1..]) + [s[0]];
    }
  }

  /** After N appends to an empty ring of capacity C, the ring holds
      min(N, C) entries, and the entry shown at position `i` is the
      (N-1-i)-th append; position 0 is the last one. */
  lemma AppendsToEmpty(es: seq<Entry>, cap: nat)
    requires cap > 0
    ensures var v := Appended([], es, cap);
      |v| == Min(|es|, cap) &&
      forall i :: 0 <= i < |v| ==> v[i] == es[|es| - 1 - i]
  {
    AppendedIsTake([], es, cap);
    assert Reverse(es) + [] == Reverse(es);
  }

  // ---------------------------------------------------------------------
  // Registry blob

  /** Bytes past the last whole record of a binary value. */
  type TailBytes = t: nat | t < RecordSize

  /** A binary registry value read as whole records plus a ragged tail. */
  datatype Blob = Blob(records: seq<Entry>, tail: TailBytes)

  /** What the registry holds for the history: the count value (0 when it is
      missing or not a DWORD) and the data value, if present as binary. */
  datatype Store = Store(count: nat, data: Option<Blob>)

  function BlobSize(b: Blob): nat {
    |b.records| * RecordSize + b.tail
  }

  /** The size check the loader applies: the blob is exactly `count` records. */
  predicate SizeMatches(b: Blob, count: nat) {
    BlobSize(b) == count * RecordSize
  }

  /** The size check accepts exactly the blobs made of `count` whole records. */
  lemma SizeMatchesIff(b: Blob, count: nat)
    ensures SizeMatches(b, count) <==> b.tail == 0 && |b.records| == count
  {
  }

  /** What saving writes: the count and the entries most recent first, or a
      zero count and no data when the history is empty. */
  function Saved(view: seq<Entry>): (r: Store)
    ensures r.count == |view|
    ensures r.data.Some? <==> view != []
    ensures view != [] ==> LoadAccepted(r) && r.data.value.records == view
  {
    if view == [] then Store(0, None) else Store(|view|, Some(Blob(view, 0)))
  }

  /** The load is skipped when the count is zero, the data is missing, or
      its size is not the count's worth of records. */
  predicate LoadAccepted(s: Store) {
    s.count > 0 && s.data.Some? && SizeMatches(s.data.value, s.count)
  }

  /** What loading does to the list of a ring of capacity `cap`: the first
      min(count, cap) saved records, re-inserted oldest first, end up in front
      of what was there, in saved order. */
  function Loaded(view: seq<Entry>, cap: nat, s: Store): (r: seq<Entry>)
    ensures !LoadAccepted(s) ==> r == view
    ensures LoadAccepted(s) ==> var n := Min(s.count, cap);
      |s.data.value.records| == s.count && |r| == Min(n + |view|, cap) &&
      r[..n] == s.data.value.records[..n] && r[n..] == view[..|r| - n]
  {
    if !LoadAccepted(s) then view
    else
      SizeMatchesIff(s.data.value, s.count);
      Take(s.data.value.records[..Min(s.count, cap)] + view, cap)
  }

  /** Loading is appending the first min(count, cap) records oldest first. */
  lemma LoadedIsAppended(view: seq<Entry>, cap: nat, s: Store)
    requires cap > 0 && |view| <= cap
    requires LoadAccepted(s)
    ensures SizeMatches(s.data.value, s.count) && |s.data.value.records| == s.count
    ensures var rs := s.data.value.records[..Min(s.count, cap)];
      Loaded(view, cap, s) == Appended(view, Reverse(rs), cap)
  {
    SizeMatchesIff(s.data.value, s.count);
    var rs := s.data.value.records[..Min(s.count, cap)];
    AppendedIsTake(view, Reverse(rs), cap);
    assert Reverse(Reverse(rs)) == rs;
  }

  /** A rejected load leaves the list as it was, and a load is rejected
      exactly when the count is zero, the data is missing, or the data is
      not `count` whole records. */
  lemma LoadRejected(view: seq<Entry>, cap: nat, s: Store)
    ensures !LoadAccepted(s) <==>
      s.count == 0 || s.data.None? || s.data.value.tail != 0 || |s.data.value.records| != s.count
    ensures !LoadAccepted(s) ==> Loaded(view, cap, s) == view
  {
    if s.data.Some? {
      SizeMatchesIff(s.data.value, s.count);
    }
  }

  /** Saving then loading into an empty ring of the same or larger capacity
      gives back the list. */
  lemma SaveLoadRoundTrip(view: seq<Entry>, cap: nat)
    requires |view| <= cap
    ensures Loaded([], cap, Saved(view)) == view
  {
    if view != [] {
      assert SizeMatches(Blob(view, 0), |view|);
      assert view[..Min(|view|, cap)] + [] == view;
    }
  }

  /** Saving then loading into an empty smaller ring keeps the most recent
      `cap` entries. */
  lemma SaveLoadIntoSmaller(view: seq<Entry>, cap: nat)
    requires cap < |view|
    ensures Loaded([], cap, Saved(view)) == view[..cap]
  {
    assert SizeMatches(Blob(view, 0), |view|);
    assert view[..Min(|view|, cap)] + [] == view[..cap];
  }
}
