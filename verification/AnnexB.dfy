/** Splitting an Annex-B byte stream at its start codes. */
module AnnexB {
  import opened Bytes

  predicate Code3(data: bytes, i: nat) {
    i + 2 < |data| && data[i] == 0 && data[i + 1] == 0 && data[i + 2] == 1
  }

  predicate Code4(data: bytes, i: nat) {
    i + 3 < |data| && data[i] == 0 && data[i + 1] == 0 && data[i + 2] == 0 && data[i + 3] == 1
  }

  /** Length of the start code at i, or 0. */
  function StartCodeLen(data: bytes, i: nat): (n: nat)
    ensures n > 0 ==> i + n <= |data|
  {
    if Code4(data, i) then 4 else if Code3(data, i) then 3 else 0
  }

  function Trimmed(s: bytes): bytes {
    if s != [] && s[|s| - 1] == 0 then Trimmed(s[..|s| - 1]) else s
  }

  /** The unit a start code at i closes, without its trailing zeros. */
  function Closed(data: bytes, start: Option<nat>, i: nat): (r: seq<bytes>)
    requires i <= |data| && (start.Some? ==> start.value <= i)
  {
    if start.None? || Trimmed(data[start.value..i]) == [] then [] else [Trimmed(data[start.value..i])]
  }

  /** The units found from i on, the current one having started at start. */
  function Scan(data: bytes, i: nat, start: Option<nat>): seq<bytes>
    requires i <= |data| && (start.Some? ==> start.value <= i)
    decreases |data| - i
  {
    if i == |data| then (if start.Some? && start.value < |data| then [data[start.value..]] else [])
    else
      var sc := StartCodeLen(data, i);
      if sc > 0 then Closed(data, start, i) + Scan(data, i + sc, Some(i + sc))
      else Scan(data, i + 1, start)
  }

  function Split(data: bytes): seq<bytes> {
    Scan(data, 0, None)
  }

  /** Where data[start..i] ends without its trailing zeros. */
  method TrimEnd(data: bytes, start: nat, i: nat) returns (end: nat)
    requires start <= i <= |data|
    ensures start <= end <= i && !EndsInZero(data[start..end]) && forall k :: end <= k < i ==> data[k] == 0
    ensures data[start..end] == Trimmed(data[start..i])
  {
    end := i;
    while end > start && data[end - 1] == 0
      invariant start <= end <= i && forall k :: end <= k < i ==> data[k] == 0
      invariant Trimmed(data[start..end]) == Trimmed(data[start..i])
    {
      assert data[start..end][..end - start - 1] == data[start..end - 1];
      end := end - 1;
    }
  }

  /** The unit a start code at i closes, if any: start is -1 before the first start code. */
  method CloseUnit(data: bytes, start: int, i: nat) returns (r: seq<bytes>)
    requires -1 <= start <= i <= |data|
    ensures r == Closed(data, Started(start), i)
  {
    r := [];
    if start >= 0 {
      var end := TrimEnd(data, start, i);
      if end > start {
        r := [data[start..end]];
      }
    }
  }

  function Started(start: int): Option<nat> {
    if start < 0 then None else Some(start)
  }

  method SplitAnnexB(data: bytes) returns (nalus: seq<bytes>)
    ensures nalus == Split(data)
  {
    hide Trimmed, StartCodeLen, Closed;
    nalus := [];
    var start, i := -1, 0;
    while i < |data|
      invariant 0 <= i <= |data| && -1 <= start <= i
      invariant nalus + Scan(data, i, Started(start)) == Split(data)
    {
      var sc := StartCodeLen(data, i);
      if sc > 0 {
        var closed := CloseUnit(data, start, i);
        ghost var rest := Scan(data, i + sc, Some(i + sc));
        assert nalus + (closed + rest) == (nalus + closed) + rest;
        nalus := nalus + closed;
        i := i + sc;
        start := i;
      } else {
        i := i + 1;
      }
    }
    if start >= 0 && start < |data| {
      nalus := nalus + [data[start..]];
    }
  }

  // ---- Joining ----

  predicate NoCode(s: bytes) {
    forall i :: 0 <= i < |s| ==> !Code3(s, i)
  }

  predicate EndsInZero(s: bytes) {
    s != [] && s[|s| - 1] == 0
  }

  /** Runs of bytes without a start code, only the last of which may end in zero. */
  predicate Segments(segs: seq<bytes>) {
    forall k :: 0 <= k < |segs| ==> NoCode(segs[k]) && (k < |segs| - 1 ==> !EndsInZero(segs[k]))
  }

  /** What splitting can return: segments that are not empty. */
  predicate Separable(nalus: seq<bytes>) {
    Segments(nalus) && [] !in nalus
  }

  /** Two zeros or more in front of every segment: all but the last two or three are padding. */
  predicate Counts(segs: seq<bytes>, zeros: seq<nat>) {
    |zeros| == |segs| && forall k :: 0 <= k < |zeros| ==> zeros[k] >= 2
  }

  /** Every segment behind a start code, padded with any number of further zeros. */
  function Join(segs: seq<bytes>, zeros: seq<nat>): bytes
    requires Counts(segs, zeros)
  {
    if segs == [] then [] else Zeros(zeros[0]) + [1] + segs[0] + Join(segs[1..], zeros[1..])
  }

  function Unit(s: bytes): seq<bytes> {
    if s == [] then [] else [s]
  }

  function NonEmpty(segs: seq<bytes>): seq<bytes> {
    if segs == [] then [] else Unit(segs[0]) + NonEmpty(segs[1..])
  }

  lemma {:induction false} NonEmptyAll(segs: seq<bytes>)
    requires [] !in segs
    ensures NonEmpty(segs) == segs
  {
    if segs != [] {
      NonEmptyAll(segs[1..]);
      assert [segs[0]] + segs[1..] == segs;
    }
  }

  /** Trimming takes away all zeros at the end and nothing else. */
  lemma {:induction false} TrimmedIs(s: bytes, z: nat)
    requires !EndsInZero(s)
    ensures Trimmed(s + Zeros(z)) == s
  {
    var t := s + Zeros(z);
    if z > 0 {
      assert t[..|t| - 1] == s + Zeros(z - 1);
      TrimmedIs(s, z - 1);
    } else {
      assert t == s;
    }
  }

  /** No start code begins inside a segment that is followed by nothing or, if it ends in a
      nonzero byte, by anything. */
  lemma NoCodeInside(data: bytes, st: nat, n: bytes, i: nat)
    requires st + |n| <= |data| && data[st..st + |n|] == n && NoCode(n) && st <= i < st + |n|
    requires st + |n| == |data| || !EndsInZero(n)
    ensures StartCodeLen(data, i) == 0
  {
    assert forall j :: st <= j < st + |n| ==> data[j] == n[j - st];
    if Code3(data, i) && i + 2 < st + |n| {
      assert Code3(n, i - st);
    }
    if Code4(data, i) && i + 3 < st + |n| {
      assert Code3(n, i + 1 - st);
    }
  }

  lemma {:induction false} ScanOver(data: bytes, st: nat, n: bytes, i: nat, start: Option<nat>)
    requires st + |n| <= |data| && data[st..st + |n|] == n && NoCode(n) && st <= i <= st + |n|
    requires (start.Some? ==> start.value <= i) && (st + |n| == |data| || !EndsInZero(n))
    ensures Scan(data, i, start) == Scan(data, st + |n|, start)
    decreases st + |n| - i
  {
    if i < st + |n| {
      NoCodeInside(data, st, n, i);
      ScanOver(data, st, n, i + 1, start);
    }
  }

  /** What was collected when i is reached: a segment and padding, or nothing yet. */
  predicate Collected(data: bytes, start: Option<nat>, i: nat, prev: bytes, z: nat) {
    i <= |data| && !EndsInZero(prev)
    && match start
       case None => prev == []
       case Some(st) => st <= i && data[st..i] == prev + Zeros(z)
  }

  lemma ClosedIs(data: bytes, start: Option<nat>, i: nat, prev: bytes, z: nat)
    requires Collected(data, start, i, prev, z)
    ensures Closed(data, start, i) == Unit(prev)
  {
    TrimmedIs(prev, z);
  }

  predicate ZerosThenOne(data: bytes, i: nat, z: nat) {
    i + z < |data| && (forall k :: i <= k < i + z ==> data[k] == 0) && data[i + z] == 1
  }

  /** A start code takes three zeros if it can. */
  lemma CodeAfter(data: bytes, i: nat, z: nat)
    requires z >= 2 && ZerosThenOne(data, i, z)
    ensures StartCodeLen(data, i) == if z < 4 then z + 1 else 0
  {
  }

  lemma OneMoreZero(data: bytes, start: Option<nat>, i: nat, prev: bytes, z: nat)
    requires Collected(data, start, i, prev, z) && i < |data| && data[i] == 0
    ensures Collected(data, start, i + 1, prev, z + 1)
  {
    if start.Some? {
      assert data[start.value..i + 1] == data[start.value..i] + [0];
      assert prev + Zeros(z) + [0] == prev + Zeros(z + 1);
    }
  }

  /** A start code behind any further zeros closes the segment before it. */
  lemma {:induction false} ScanCode(data: bytes, start: Option<nat>, i: nat, prev: bytes, done: nat, left: nat)
    requires left >= 2 && ZerosThenOne(data, i, left) && Collected(data, start, i, prev, done)
    ensures Scan(data, i, start) == Unit(prev) + Scan(data, i + left + 1, Some(i + left + 1))
    decreases left
  {
    hide Code3, Code4, StartCodeLen, Closed;
    CodeAfter(data, i, left);
    if left < 4 {
      hide Collected;
      ClosedIs(data, start, i, prev, done);
    } else {
      OneMoreZero(data, start, i, prev, done);
      ScanCode(data, start, i + 1, prev, done + 1, left - 1);
    }
  }

  /** The parts of one joined segment, found in data at i. */
  lemma JoinedParts(data: bytes, i: nat, z: nat, n: bytes, tail: bytes)
    requires i <= |data| && data[i..] == Zeros(z) + [1] + n + tail
    ensures var st := i + z + 1;
            && st + |n| + |tail| == |data| && data[st..st + |n|] == n && data[st + |n|..] == tail
            && ZerosThenOne(data, i, z)
  {
    var d := data[i..];
    forall k | i <= k < i + z ensures data[k] == 0 {
      assert d[k - i] == data[k];
    }
    assert d[z] == data[i + z];
    assert d[z + 1..z + 1 + |n|] == n && d[z + 1 + |n|..] == tail;
    assert data[i + z + 1..i + z + 1 + |n|] == d[z + 1..z + 1 + |n|];
    assert data[i + z + 1 + |n|..] == d[z + 1 + |n|..];
  }

  lemma {:induction false} ScanJoined(data: bytes, start: Option<nat>, i: nat, prev: bytes, segs: seq<bytes>,
      zeros: seq<nat>)
    requires Collected(data, start, i, prev, 0) && Segments(segs) && segs != [] && Counts(segs, zeros)
    requires i <= |data| && data[i..] == Join(segs, zeros)
    ensures Scan(data, i, start) == Unit(prev) + NonEmpty(segs)
    decreases |segs|
  {
    hide Code3, Code4, Trimmed, NoCode, Closed, StartCodeLen, Scan, ZerosThenOne, Collected;
    var z, n, rest := zeros[0], segs[0], segs[1..];
    var st := i + z + 1;
    JoinedParts(data, i, z, n, Join(rest, zeros[1..]));
    ScanCode(data, start, i, prev, 0, z);
    ScanOver(data, st, n, st, Some(st));
    if rest == [] {
      LastSegment(data, st, n);
    } else {
      RestSegments(segs);
      CollectedWhole(data, st, n);
      ScanJoined(data, Some(st), st + |n|, n, rest, zeros[1..]);
    }
  }

  lemma RestSegments(segs: seq<bytes>)
    requires Segments(segs) && segs != []
    ensures Segments(segs[1..])
  {
    assert forall k :: 0 <= k < |segs| - 1 ==> segs[1..][k] == segs[k + 1];
  }

  lemma CollectedWhole(data: bytes, st: nat, n: bytes)
    requires st + |n| <= |data| && data[st..st + |n|] == n && !EndsInZero(n)
    ensures Collected(data, Some(st), st + |n|, n, 0)
  {
    assert n + Zeros(0) == n;
  }

  lemma LastSegment(data: bytes, st: nat, n: bytes)
    requires st + |n| == |data| && data[st..st + |n|] == n
    ensures Scan(data, st + |n|, Some(st)) == Unit(n)
  {
    assert data[st..] == n;
  }

  /** Every string ends in a run of zeros, possibly empty. */
  lemma {:induction false} ZeroTail(s: bytes) returns (core: bytes, z: nat)
    ensures s == core + Zeros(z) && !EndsInZero(core)
    ensures NoCode(s) ==> NoCode(core)
  {
    core, z := s, 0;
    assert s == s + Zeros(0);
    if EndsInZero(s) {
      var n;
      core, n := ZeroTail(s[..|s| - 1]);
      z := n + 1;
      assert Zeros(n) + [0] == Zeros(z);
      assert s == s[..|s| - 1] + [0] == core + (Zeros(n) + [0]);
      PrefixHasNoCode(s, core);
    }
  }

  lemma PrefixHasNoCode(s: bytes, t: bytes)
    requires t <= s
    ensures NoCode(s) ==> NoCode(t)
  {
    if NoCode(s) {
      forall j | 0 <= j < |t| ensures !Code3(t, j) {
        assert !Code3(s, j);
      }
    }
  }

  /** Zeros in front of the first start code are further padding of it. */
  lemma MorePadding(z: nat, segs: seq<bytes>, zeros: seq<nat>)
    requires segs != [] && Counts(segs, zeros)
    ensures Counts(segs, zeros[0 := z + zeros[0]])
    ensures Zeros(z) + Join(segs, zeros) == Join(segs, zeros[0 := z + zeros[0]])
  {
    var padded := zeros[0 := z + zeros[0]];
    var rest := [1] + segs[0] + Join(segs[1..], zeros[1..]);
    assert Zeros(z) + Zeros(zeros[0]) == Zeros(padded[0]);
    assert Join(segs, zeros) == Zeros(zeros[0]) + rest;
    assert Join(segs, padded) == Zeros(padded[0]) + rest;
    assert Zeros(z) + (Zeros(zeros[0]) + rest) == Zeros(z) + Zeros(zeros[0]) + rest;
  }

  /** What data is made of: bytes before any start code, then segments behind padded start codes. */
  ghost predicate Parts(data: bytes, lead: bytes, segs: seq<bytes>, zeros: seq<nat>) {
    NoCode(lead) && Segments(segs) && Counts(segs, zeros) && data == lead + Join(segs, zeros)
  }

  /** The leading bytes are ignored, zeros in front of a start code are dropped, and every nonempty
      segment is a unit. */
  lemma SplitsInto(data: bytes, lead: bytes, segs: seq<bytes>, zeros: seq<nat>)
    requires Parts(data, lead, segs, zeros)
    ensures Split(data) == NonEmpty(segs)
  {
    hide NoCode, Join, Segments, Scan;
    var core, z := ZeroTail(lead);
    if segs == [] {
      JoinEmpty(segs, zeros);
      assert data == lead;
      ScanEnds(data);
      assert data[0..0 + |lead|] == lead;
      ScanOver(data, 0, lead, 0, None);
    } else {
      MorePadding(z, segs, zeros);
      var joined := Join(segs, zeros[0 := z + zeros[0]]);
      assert data == core + Zeros(z) + Join(segs, zeros) == core + joined;
      assert data[0..0 + |core|] == core && data[|core|..] == joined;
      ScanOver(data, 0, core, 0, None);
      ScanJoined(data, None, |core|, [], segs, zeros[0 := z + zeros[0]]);
    }
  }

  lemma ScanEnds(data: bytes)
    ensures Scan(data, |data|, None) == []
  {
  }

  lemma JoinEmpty(segs: seq<bytes>, zeros: seq<nat>)
    requires segs == [] && Counts(segs, zeros)
    ensures Join(segs, zeros) == []
  {
  }

  /** The leading bytes begin with a start code: what follows it becomes the first segment. */
  lemma NewSegment(first: bytes, segs: seq<bytes>, zeros: seq<nat>) returns (segs': seq<bytes>, zeros': seq<nat>)
    requires NoCode(first) && Segments(segs) && Counts(segs, zeros)
    ensures Parts([0, 0, 1] + first + Join(segs, zeros), [], segs', zeros')
  {
    hide NoCode, Join, Segments, Parts;
    var core, z, more := first, 0, zeros;
    if segs != [] {
      core, z := ZeroTail(first);
      more := zeros[0 := z + zeros[0]];
      MorePadding(z, segs, zeros);
    } else {
      JoinEmpty(segs, zeros);
    }
    assert first + Join(segs, zeros) == core + Join(segs, more);
    segs', zeros' := [core] + segs, [2] + more;
    Prepended(core, segs, more);
    assert [0, 0, 1] + first + Join(segs, zeros) == [0, 0, 1] + (core + Join(segs, more));
  }

  lemma Prepended(first: bytes, segs: seq<bytes>, zeros: seq<nat>)
    requires NoCode(first) && (segs != [] ==> !EndsInZero(first)) && Segments(segs) && Counts(segs, zeros)
    ensures Parts([0, 0, 1] + (first + Join(segs, zeros)), [], [first] + segs, [2] + zeros)
  {
    hide NoCode;
    var all, counts := [first] + segs, [2] + zeros;
    assert all[1..] == segs && counts[1..] == zeros;
    JoinCons(first, segs, zeros);
    EmptyHasNoCode();
    assert [0, 0, 1] + (first + Join(segs, zeros)) == [] + Join(all, counts);
  }

  lemma JoinCons(first: bytes, segs: seq<bytes>, zeros: seq<nat>)
    requires Counts(segs, zeros)
    ensures Counts([first] + segs, [2] + zeros)
    ensures Join([first] + segs, [2] + zeros) == [0, 0, 1] + (first + Join(segs, zeros))
  {
    var all, counts := [first] + segs, [2] + zeros;
    assert all[1..] == segs && counts[1..] == zeros;
    var tail := Join(segs, zeros);
    assert Zeros(2) + [1] == [0, 0, 1];
    assert Join(all, counts) == Zeros(2) + [1] + first + tail;
    assert [0, 0, 1] + first + tail == [0, 0, 1] + (first + tail);
  }

  lemma EmptyHasNoCode()
    ensures NoCode([])
  {
  }

  /** Every byte string is made of such parts. */
  lemma {:induction false} Decompose(data: bytes) returns (lead: bytes, segs: seq<bytes>, zeros: seq<nat>)
    ensures Parts(data, lead, segs, zeros)
  {
    hide Segments, Counts;
    lead, segs, zeros := [], [], [];
    if data == [] {
      NoSegments();
    } else {
      var rest;
      rest, segs, zeros := Decompose(data[1..]);
      lead := data[..1] + rest;
      assert data == lead + Join(segs, zeros);
      if Code3(lead, 0) {
        assert lead == [0, 0, 1] + rest[2..];
        LaterNoCode(rest, 2);
        segs, zeros := NewSegment(rest[2..], segs, zeros);
        lead := [];
      } else {
        forall j | 0 <= j < |lead| ensures !Code3(lead, j) {
          assert j > 0 ==> !Code3(rest, j - 1);
        }
      }
    }
  }

  lemma NoSegments()
    ensures Parts([], [], [], [])
  {
  }

  lemma LaterNoCode(s: bytes, k: nat)
    requires k <= |s| && NoCode(s)
    ensures NoCode(s[k..])
  {
    forall j | 0 <= j < |s| - k ensures !Code3(s[k..], j) {
      assert !Code3(s, j + k);
    }
  }

  /** Splitting, on every byte string, without the scan: the units are the nonempty segments of what
      the string is made of. */
  lemma SplitIff(data: bytes, nalus: seq<bytes>)
    ensures Split(data) == nalus <==>
            exists lead, segs, zeros :: Parts(data, lead, segs, zeros) && nalus == NonEmpty(segs)
  {
    hide Parts, Split, NonEmpty;
    var lead, segs, zeros := Decompose(data);
    SplitsInto(data, lead, segs, zeros);
    forall lead, segs, zeros | Parts(data, lead, segs, zeros) ensures Split(data) == NonEmpty(segs) {
      SplitsInto(data, lead, segs, zeros);
    }
  }

  // ---- What splitting returns ----

  predicate NoCodeFrom(data: bytes, st: nat, i: nat) {
    forall j: nat :: st <= j < i ==> StartCodeLen(data, j) == 0
  }

  lemma SliceHasNoCode(data: bytes, st: nat, i: nat)
    requires st <= i <= |data| && NoCodeFrom(data, st, i)
    ensures NoCode(data[st..i])
  {
    forall j | 0 <= j < i - st ensures !Code3(data[st..i], j) {
      assert StartCodeLen(data, st + j) == 0;
    }
  }

  lemma {:induction false} TrimmedPrefix(s: bytes)
    ensures Trimmed(s) <= s
    ensures Trimmed(s) != [] ==> Trimmed(s)[|Trimmed(s)| - 1] != 0
  {
    if s != [] && s[|s| - 1] == 0 {
      TrimmedPrefix(s[..|s| - 1]);
    }
  }

  lemma {:induction false} ScanSeparable(data: bytes, i: nat, start: Option<nat>)
    requires i <= |data| && (start.Some? ==> start.value <= i && NoCodeFrom(data, start.value, i))
    ensures Separable(Scan(data, i, start))
    decreases |data| - i
  {
    if i == |data| {
      if start.Some? {
        SliceHasNoCode(data, start.value, i);
        assert data[start.value..i] == data[start.value..];
      }
    } else {
      var sc := StartCodeLen(data, i);
      if sc > 0 {
        ScanSeparable(data, i + sc, Some(i + sc));
        if start.Some? {
          SliceHasNoCode(data, start.value, i);
          TrimmedPrefix(data[start.value..i]);
          PrefixHasNoCode(data[start.value..i], Trimmed(data[start.value..i]));
        }
      } else {
        ScanSeparable(data, i + 1, start);
      }
    }
  }

  /** On every byte string, the units found are separable. */
  lemma SplitSeparable(data: bytes)
    ensures Separable(Split(data))
  {
    ScanSeparable(data, 0, None);
  }

  /** Splitting gives back joined units, whatever is before them and however many zeros are in front
      of each start code, exactly when they are separable. */
  lemma SplitInvertsJoinIff(lead: bytes, nalus: seq<bytes>, zeros: seq<nat>)
    requires NoCode(lead) && Counts(nalus, zeros)
    ensures Split(lead + Join(nalus, zeros)) == nalus <==> Separable(nalus)
  {
    SplitSeparable(lead + Join(nalus, zeros));
    if Separable(nalus) {
      SplitsInto(lead + Join(nalus, zeros), lead, nalus, zeros);
      NonEmptyAll(nalus);
    }
  }

  /** Joining what was split and splitting again changes nothing. */
  lemma SplitJoinSplit(data: bytes, zeros: seq<nat>)
    requires Counts(Split(data), zeros)
    ensures Split(Join(Split(data), zeros)) == Split(data)
  {
    SplitSeparable(data);
    SplitInvertsJoinIff([], Split(data), zeros);
    assert [] + Join(Split(data), zeros) == Join(Split(data), zeros);
  }
}
