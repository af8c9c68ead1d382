/**
 * The history ring buffer as the program keeps it: a fixed-capacity array
 * written at `head`, with `count` valid entries, read back most recent
 * first. The list it shows is the one the `History` module reasons about.
 */
module HistoryRing {
  import opened Text
  import opened Status
  import opened History

  /** The array slot of the entry shown at position `i` (0 = most recent):
      one before `head`, walking backwards and wrapping past slot 0. */
  function Slot(head: nat, i: nat, cap: nat): (k: nat)
    requires head < cap && i < cap
    ensures k < cap
  {
    if i < head then head - 1 - i else head + cap - 1 - i
  }

  /** `x % cap` for `0 <= x < 2 * cap`. */
  lemma ModInRange(x: int, cap: nat)
    requires cap > 0 && 0 <= x < 2 * cap
    ensures x < cap ==> x % cap == x
    ensures cap <= x ==> x % cap == x - cap
  {
    if cap <= x {
      assert x == (x - cap) + cap;
      assert (x - cap) % cap == x - cap;
    }
  }

  /** The slot is the ring's own formula `(head - 1 - i + cap) % cap`. */
  lemma SlotIsModulo(head: nat, i: nat, cap: nat)
    requires head < cap && i < cap
    ensures Slot(head, i, cap) == (head - 1 - i + cap) % cap
  {
    ModInRange(head - 1 - i + cap, cap);
  }

  /** The next write position, wrapping at the capacity. */
  function NextHead(head: nat, cap: nat): (h: nat)
    requires head < cap
    ensures h < cap
  {
    if head + 1 == cap then 0 else head + 1
  }

  /** The next head is the ring's own formula `(head + 1) % cap`. */
  lemma NextHeadIsModulo(head: nat, cap: nat)
    requires head < cap
    ensures NextHead(head, cap) == (head + 1) % cap
  {
    ModInRange(head + 1, cap);
  }

  /** The list an array shows for a given head and count. */
  function ViewOf(a: seq<Entry>, head: nat, count: nat): (v: seq<Entry>)
    requires head < |a| && count <= |a|
    ensures |v| == count
  {
    seq(count, i requires 0 <= i < count => a[Slot(head, i, |a|)])
  }

  /** Writing at `head` and advancing is pushing onto the shown list. */
  lemma PushView(a: seq<Entry>, head: nat, count: nat, e: Entry)
    requires head < |a| && count <= |a|
    ensures var count' := if count < |a| then count + 1 else count;
      ViewOf(a[head := e], NextHead(head, |a|), count') == Pushed(ViewOf(a, head, count), e, |a|)
  {
    var cap := |a|;
    var count' := if count < cap then count + 1 else count;
    var h' := NextHead(head, cap);
    var l := ViewOf(a[head := e], h', count');
    var r := Pushed(ViewOf(a, head, count), e, cap);
    assert |l| == |r|;
    forall i | 0 <= i < count' ensures l[i] == r[i] {
      if i == 0 {
        assert Slot(h', 0, cap) == head;
      } else {
        assert Slot(h', i, cap) == Slot(head, i - 1, cap);
        assert Slot(h', i, cap) != head;
      }
    }
  }

  /** An array whose first `n` slots hold the first `n` shown entries in
      reverse shows exactly those entries once head is `n % cap`. */
  lemma CopiedView(a: seq<Entry>, v: seq<Entry>, n: nat)
    requires 0 < n <= |a| && n <= |v|
    requires forall k :: 0 <= k < n ==> a[k] == v[n - 1 - k]
    ensures ViewOf(a, n % |a|, n) == v[..n]
  {
    var cap := |a|;
    ModInRange(n, cap);
    var l := ViewOf(a, n % cap, n);
    forall i | 0 <= i < n ensures l[i] == v[i] {
      assert Slot(n % cap, i, cap) == n - 1 - i;
    }
  }

  /** One step of a load: pushing `records[i]` onto the list that already
      has `records[i + 1..toLoad]` in front. */
  lemma LoadStep(records: seq<Entry>, i: nat, toLoad: nat, v0: seq<Entry>, cap: nat)
    requires i < toLoad <= |records| && cap > 0
    ensures Pushed(Take(records[i + 1..toLoad] + v0, cap), records[i], cap) == Take(records[i..toLoad] + v0, cap)
  {
    TakePushed(records[i], records[i + 1..toLoad] + v0, cap);
    assert [records[i]] + (records[i + 1..toLoad] + v0) == records[i..toLoad] + v0;
  }

  /** Copying entry `i` extends a copy of the first `i` entries by one. */
  lemma CopyStep(records: seq<Entry>, v: seq<Entry>, i: nat)
    requires i < |v| && records == v[..i]
    ensures records + [v[i]] == v[..i + 1]
  {
  }

  /** The last `i` of the first `n` slots of `d` hold the first `i` entries
      of `v` in reverse. */
  ghost predicate Placed(d: seq<Entry>, v: seq<Entry>, n: nat, i: nat)
    requires i <= n <= |d| && n <= |v|
  {
    forall k :: n - i <= k < n ==> d[k] == v[n - 1 - k]
  }

  /** Writing entry `i` into slot `n - 1 - i` places one more entry. */
  lemma PlaceStep(d: seq<Entry>, v: seq<Entry>, n: nat, i: nat)
    requires i < n <= |d| && n <= |v| && Placed(d, v, n, i)
    ensures Placed(d[n - 1 - i := v[i]], v, n, i + 1)
  {
  }

  class Ring {
    /** The entries; null before the first sizing and after release. */
    var buf: array?<Entry>
    var capacity: nat
    /** Where the next entry is written. */
    var head: nat
    /** How many slots hold entries. */
    var count: nat

    predicate Valid()
      reads this
    {
      if buf == null then capacity == 0 && head == 0 && count == 0
      else buf.Length == capacity && 0 < capacity && head < capacity && count <= capacity
    }

    /** The entries as shown, most recent first. */
    function View(): (v: seq<Entry>)
      requires Valid()
      reads this, buf
      ensures |v| == count
    {
      if buf == null then [] else ViewOf(buf[..], head, count)
    }

    /** No buffer yet. */
    constructor ()
      ensures Valid() && buf == null && View() == []
    {
      buf := null;
      capacity := 0;
      head := 0;
      count := 0;
    }

    /** The entry at display position `i` (0 = most recent), none outside
        `[0, count)`. */
    method Get(i: int) returns (e: Option<Entry>)
      requires Valid()
      ensures 0 <= i < count ==> e == Some(View()[i])
      ensures !(0 <= i < count) ==> e == None
    {
      if buf == null || i < 0 || i >= count {
        return None;
      }
      SlotIsModulo(head, i, capacity);
      var k := (head - 1 - i + capacity) % capacity;
      e := Some(buf[k]);
    }

    /** Records a status change: both messages cut to 255 characters, the
        entry written at `head`, the oldest entry overwritten once full.
        Without a buffer nothing happens. */
    method Add(stamp: nat, oldResult: ApiResult, oldMessage: string,
               newResult: ApiResult, newMessage: string)
      requires Valid()
      modifies this, buf
      ensures Valid() && buf == old(buf) && capacity == old(capacity)
      ensures old(buf) == null ==> View() == old(View())
      ensures old(buf) != null ==>
        View() == Pushed(old(View()), MakeEntry(stamp, oldResult, oldMessage, newResult, newMessage), capacity)
    {
      if buf == null || capacity <= 0 {
        return;
      }
      Insert(MakeEntry(stamp, oldResult, oldMessage, newResult, newMessage));
    }

    /** Writes `e` at `head`, advances `head` and grows `count` up to the
        capacity: the step shared by appending and loading. */
    method Insert(e: Entry)
      requires Valid() && buf != null
      modifies this, buf
      ensures Valid() && buf == old(buf) && capacity == old(capacity)
      ensures View() == Pushed(old(View()), e, capacity)
    {
      PushView(buf[..], head, count, e);
      NextHeadIsModulo(head, capacity);
      buf[head] := e;
      assert buf[..] == old(buf[..])[old(head) := e];
      head := (head + 1) % capacity;
      if count < capacity {
        count := count + 1;
      }
    }

    /** Sizes the ring to the requested capacity clamped to [10, 10000],
        keeping the most recent entries that fit; a ring that already has
        that capacity is left alone. */
    method Init(requested: int)
      requires Valid()
      modifies this
      ensures Valid() && capacity == ClampCapacity(requested)
      ensures old(buf) != null && capacity == old(capacity) ==>
        buf == old(buf) && head == old(head) && count == old(count)
      ensures View() == Take(old(View()), capacity)
    {
      var c := ClampCapacity(requested);
      if buf != null && c == capacity {
        assert View() == Take(View(), c);
        return;
      }
      ghost var v0 := View();
      var newBuf := new Entry[c](_ => BlankEntry);
      if buf != null && count > 0 {
        var toCopy := if count < c then count else c;
        CopyNewest(newBuf, toCopy);
        CopiedView(newBuf[..], v0, toCopy);
        head := toCopy % c;
        count := toCopy;
      } else {
        head := 0;
        count := 0;
      }
      buf := newBuf;
      capacity := c;
    }

    /** Copies the `n` most recent entries into `dest`, oldest first from
        slot 0, so that `n` becomes the next write position. */
    method CopyNewest(dest: array<Entry>, n: nat)
      requires Valid() && dest != buf && n <= count && n <= dest.Length
      modifies dest
      ensures forall k :: 0 <= k < n ==> dest[k] == View()[n - 1 - k]
    {
      ghost var v := View();
      var i := 0;
      while i < n
        invariant 0 <= i <= n
        invariant Placed(dest[..], v, n, i)
      {
        var src := Get(i);
        ModInRange(n - 1 - i, dest.Length);
        var slot := (n - 1 - i) % dest.Length;
        PlaceStep(dest[..], v, n, i);
        ghost var before := dest[..];
        if src.Some? {
          dest[slot] := src.value;
        }
        assert dest[..] == before[n - 1 - i := v[i]];
        i := i + 1;
      }
      assert Placed(dest[..], v, n, n);
    }

    /** Releases the buffer; the ring is empty afterwards. */
    method Free()
      modifies this
      ensures Valid() && buf == null && View() == []
    {
      buf := null;
      capacity := 0;
      count := 0;
      head := 0;
    }

    /** What saving writes: the count and the entries most recent first, or
        a zero count and no data when the ring is empty or unallocated. */
    method Save() returns (s: Store)
      requires Valid()
      ensures s == Saved(View())
    {
      if count == 0 || buf == null {
        return Store(0, None);
      }
      ghost var v := View();
      var records: seq<Entry> := [];
      var i := 0;
      while i < count
        invariant 0 <= i <= count
        invariant records == v[..i]
      {
        var e := Get(i);
        assert e.Some?;
        if e.Some? {
          CopyStep(records, v, i);
          records := records + [e.value];
        }
        i := i + 1;
      }
      assert records == v;
      s := Store(count, Some(Blob(records, 0)));
    }

    /** Loads a saved store into the ring: nothing happens when the count is
        zero, the data is missing or the data size is not `count` records;
        otherwise the first min(count, capacity) records are written oldest
        first, so they show in saved order ahead of what was there. */
    method Load(s: Store)
      requires Valid()
      modifies this, buf
      ensures Valid() && buf == old(buf) && capacity == old(capacity)
      ensures View() == Loaded(old(View()), capacity, s)
    {
      if s.count == 0 || s.data.None? {
        return;
      }
      var blob := s.data.value;
      if BlobSize(blob) != s.count * RecordSize {
        return;
      }
      SizeMatchesIff(blob, s.count);
      var toLoad := s.count;
      if toLoad > capacity {
        toLoad := capacity;
      }
      InsertOldestFirst(blob.records, toLoad);
      assert LoadAccepted(s) && toLoad == Min(s.count, capacity);
    }

    /** Writes `records[toLoad - 1]` down to `records[0]`, so the records show
        in their saved order ahead of what was there. */
    method InsertOldestFirst(records: seq<Entry>, toLoad: nat)
      requires Valid() && toLoad <= |records| && toLoad <= capacity
      modifies this, buf
      ensures Valid() && buf == old(buf) && capacity == old(capacity)
      ensures View() == Take(records[..toLoad] + old(View()), capacity)
    {
      ghost var v0 := View();
      assert records[toLoad..toLoad] + v0 == v0;
      var i := toLoad;
      while i > 0
        invariant 0 <= i <= toLoad
        invariant Valid() && buf == old(buf) && capacity == old(capacity)
        invariant View() == Take(records[i..toLoad] + v0, capacity)
      {
        i := i - 1;
        LoadStep(records, i, toLoad, v0, capacity);
        Insert(records[i]);
      }
      assert records[0..toLoad] == records[..toLoad];
    }
  }
}
