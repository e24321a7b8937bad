/**
  The chunk files of src/disk_manager.cc: chunk ids, allocation with free lists, writing with
  zero padding, reading through short reads, and the metadata file.
 */
module DiskManager {
  import opened Common

  newtype Byte = x: int | 0 <= x < 256

  datatype Error = OutOfRange | Deleted | Overflow | InvalidArgument | IoError | BadMetadata

  const LEVELS: nat := 4
  const NO_LIMIT: nat := 0x4000_0000_0000_0000
  const U64: nat := 0x1_0000_0000_0000_0000
  /** File offsets are signed. */
  const OFFSETS: nat := 0x8000_0000_0000_0000
  const ZERO_PAGE: nat := 4096

  function SizeOf(t: nat): (size: nat)
    requires t < LEVELS
    ensures 0 < size < U64
  {
    if t == 0 then 4 * 1024 else if t == 1 then 64 * 1024 else if t == 2 then 512 * 1024 else 2 * 1024 * 1024
  }

  // ---------- Chunk ids ----------

  /** The type in the top two bits, the number in the 62 bits below. */
  function MakeId(t: nat, no: nat): (r: Result<nat, Error>) {
    if t >= LEVELS || no >= NO_LIMIT then Err(OutOfRange) else Ok(t * NO_LIMIT + no)
  }

  function TypeOf(id: nat): (t: nat) {
    id / NO_LIMIT
  }

  function NoOf(id: nat): (no: nat) {
    id % NO_LIMIT
  }

  datatype Addr = Addr(t: nat, no: nat, offset: nat, size: nat)

  function Decode(id: nat): (r: Result<Addr, Error>) {
    if TypeOf(id) >= LEVELS then Err(OutOfRange)
    else if NoOf(id) > (U64 - 1) / SizeOf(TypeOf(id)) then Err(Overflow)
    else Ok(Addr(TypeOf(id), NoOf(id), NoOf(id) * SizeOf(TypeOf(id)), SizeOf(TypeOf(id))))
  }

  /** Ids decode to what was encoded, and every 64-bit id is the encoding of what it decodes to. */
  lemma IdsRoundTrip(t: nat, no: nat, id: nat)
    ensures MakeId(t, no) == Ok(id) ==> id < U64 && TypeOf(id) == t && NoOf(id) == no
    ensures id < U64 ==> MakeId(TypeOf(id), NoOf(id)) == Ok(id)
  {
  }

  /** Ids come in the order of type and then number. */
  lemma IdsInOrder(a: nat, b: nat)
    ensures a < b <==> TypeOf(a) < TypeOf(b) || (TypeOf(a) == TypeOf(b) && NoOf(a) < NoOf(b))
  {
  }

  /** A decoded address is exact: no 64-bit product wraps, and decoding fails only where one would. */
  lemma DecodeIsExact(id: nat)
    requires id < U64
    ensures Decode(id).Ok? <==> NoOf(id) * SizeOf(TypeOf(id)) < U64
    ensures Decode(id).Ok? ==> Decode(id).value.offset == NoOf(id) * SizeOf(TypeOf(id)) < U64
  {
    var no, size := NoOf(id), SizeOf(TypeOf(id));
    QuotientBound(no, size, U64 - 1);
  }

  lemma QuotientBound(a: nat, b: nat, m: nat)
    requires b > 0
    ensures a > m / b <==> a * b > m
  {
    assert m == b * (m / b) + m % b;
    if a > m / b {
      Multiply(m / b + 1, a, b);
    } else {
      Multiply(a, m / b, b);
    }
  }

  lemma Multiply(a: nat, b: nat, c: nat)
    requires a <= b
    ensures a * c <= b * c
  {
  }

  /** Byte ranges of different chunks of one type do not meet. */
  lemma RangesDisjoint(t: nat, a: nat, b: nat)
    requires t < LEVELS && a < b
    ensures a * SizeOf(t) + SizeOf(t) <= b * SizeOf(t)
  {
    Multiply(a + 1, b, SizeOf(t));
  }

  /** Where chunk `no` of a type begins. */
  function Offset(t: nat, no: nat): (offset: nat)
    requires t < LEVELS
  {
    no * SizeOf(t)
  }

  lemma OffsetGrows(t: nat, a: nat, b: nat)
    requires t < LEVELS && a <= b
    ensures Offset(t, a) <= Offset(t, b) && Offset(t, a) + SizeOf(t) == Offset(t, a + 1)
    ensures a < b ==> Offset(t, a) + SizeOf(t) <= Offset(t, b)
  {
    Multiply(a, b, SizeOf(t));
    if a < b {
      Multiply(a + 1, b, SizeOf(t));
    }
  }

  lemma DecodedIs(id: nat)
    requires Decode(id).Ok?
    ensures var a := Decode(id).value;
      TypeOf(id) < LEVELS && a == Addr(TypeOf(id), NoOf(id), Offset(TypeOf(id), NoOf(id)), SizeOf(TypeOf(id)))
  {
  }

  /** Ids are equal exactly when type and number are. */
  lemma IdFacts()
    ensures forall a: nat :: NoOf(a) < NO_LIMIT
    ensures forall t: nat, no: nat :: t < LEVELS && MakeId(t, no).Err? ==> no >= NO_LIMIT
    ensures forall a: nat, b: nat :: TypeOf(a) == TypeOf(b) && NoOf(a) == NoOf(b) ==> a == b
    ensures forall t: nat, no: nat :: MakeId(t, no).Ok? ==> TypeOf(MakeId(t, no).value) == t && NoOf(MakeId(t, no).value) == no
  {
  }

  // ---------- File bytes ----------

  function Zeros(n: nat): (z: seq<Byte>)
    ensures |z| == n && forall i :: 0 <= i < n ==> z[i] == 0
  {
    seq(n, _ => 0)
  }

  /** The file after writing `bytes` at `pos`; a hole reads as zeros. */
  function WriteAt(file: seq<Byte>, pos: nat, bytes: seq<Byte>): (after: seq<Byte>) {
    if |bytes| == 0 then file
    else
      seq(if |file| > pos + |bytes| then |file| else pos + |bytes|, i requires 0 <= i =>
        if pos <= i < pos + |bytes| then bytes[i - pos] else if i < |file| then file[i] else 0)
  }

  /** `size` bytes at `pos`, with zeros beyond the end of the file. */
  function Page(file: seq<Byte>, pos: nat, size: nat): (page: seq<Byte>)
    ensures |page| == size
  {
    seq(size, i requires 0 <= i => if pos + i < |file| then file[pos + i] else 0)
  }

  lemma WriteTwice(file: seq<Byte>, pos: nat, a: seq<Byte>, b: seq<Byte>)
    ensures WriteAt(WriteAt(file, pos, a), pos + |a|, b) == WriteAt(file, pos, a + b)
  {
    var left, right := WriteAt(WriteAt(file, pos, a), pos + |a|, b), WriteAt(file, pos, a + b);
    if |a| == 0 {
      assert a + b == b;
    } else if |b| == 0 {
      assert a + b == a;
    } else {
      assert |left| == |right|;
      forall i | 0 <= i < |left| ensures left[i] == right[i] {
      }
    }
  }

  lemma PageWritten(file: seq<Byte>, pos: nat, bytes: seq<Byte>)
    ensures Page(WriteAt(file, pos, bytes), pos, |bytes|) == bytes
  {
  }

  lemma PageElsewhere(file: seq<Byte>, pos: nat, bytes: seq<Byte>, at: nat, size: nat)
    requires at + size <= pos || pos + |bytes| <= at
    ensures Page(WriteAt(file, pos, bytes), at, size) == Page(file, at, size)
  {
  }

  lemma RemainderIsLess(a: nat, b: nat)
    requires b > 0
    ensures a % b <= a
  {
  }

  /** Rewriting one page changes that page and no other of the file. */
  lemma Rewritten(file: seq<Byte>, t: nat, no: nat, page: seq<Byte>)
    requires t < LEVELS && |page| == SizeOf(t)
    ensures Page(WriteAt(file, Offset(t, no), page), Offset(t, no), SizeOf(t)) == page
    ensures forall k: nat :: k != no ==>
      Page(WriteAt(file, Offset(t, no), page), Offset(t, k), SizeOf(t)) == Page(file, Offset(t, k), SizeOf(t))
  {
    PageWritten(file, Offset(t, no), page);
    forall k: nat | k != no
      ensures Page(WriteAt(file, Offset(t, no), page), Offset(t, k), SizeOf(t)) == Page(file, Offset(t, k), SizeOf(t))
    {
      if k < no {
        OffsetGrows(t, k, no);
      } else {
        OffsetGrows(t, no, k);
      }
      PageElsewhere(file, Offset(t, no), page, Offset(t, k), SizeOf(t));
    }
  }

  lemma WrittenLength(file: seq<Byte>, t: nat, no: nat, page: seq<Byte>)
    requires t < LEVELS && |page| == SizeOf(t)
    ensures |WriteAt(file, Offset(t, no), page)| ==
      if |file| > Offset(t, no + 1) then |file| else Offset(t, no + 1)
  {
    OffsetGrows(t, no, no);
  }

  lemma PoppedList(list: seq<nat>, count: nat)
    requires |list| > 0 && NoDup(list) && InBounds(list, count)
    ensures var rest := list[..|list| - 1];
      && NoDup(rest) && InBounds(rest, count) && list[|list| - 1] < count
      && forall x :: x in rest <==> x in list && x != list[|list| - 1]
  {
    assert list == list[..|list| - 1] + [list[|list| - 1]];
    InAppend(list[..|list| - 1], list[|list| - 1]);
  }

  lemma PushedList(list: seq<nat>, count: nat, no: nat)
    requires NoDup(list) && InBounds(list, count) && no < count && no !in list
    ensures NoDup(list + [no]) && InBounds(list + [no], count)
    ensures forall x :: x in list + [no] <==> x in list || x == no
  {
    InAppend(list, no);
  }

  // ---------- Reserving space ----------

  /** What the file system does: it preallocates, it can only set the length, or it refuses both. */
  datatype Space = Preallocates | SetsLength | Refuses

  /** The file cut off or extended by a hole to `n` bytes. */
  function Resize(file: seq<Byte>, n: nat): (after: seq<Byte>)
    ensures |after| == n && forall i :: 0 <= i < n ==> after[i] == if i < |file| then file[i] else 0
  {
    if n <= |file| then file[..n] else file + Zeros(n - |file|)
  }

  /** The byte length asked for chunk `no`, in 64-bit arithmetic. */
  function Required(t: nat, no: nat): nat
    requires t < LEVELS
  {
    Offset(t, no + 1) % U64
  }

  /**
    Preallocate `required` bytes, which only ever extends the file but is refused for no bytes at
    all; failing that, set the length. A length that is negative as a signed number is an error.
   */
  function Reserve(file: seq<Byte>, required: nat, space: Space): (r: Option<seq<Byte>>) {
    if required >= OFFSETS || space.Refuses? then None
    else if space.Preallocates? && required > 0 && |file| >= required then Some(file)
    else Some(Resize(file, required))
  }

  /** Reserving room for chunk `no` makes the file reach to its end and moves no byte; new bytes are zero. */
  lemma RoomReserved(file: seq<Byte>, t: nat, no: nat, space: Space)
    requires t < LEVELS && no * SizeOf(t) + SizeOf(t) < OFFSETS && !space.Refuses?
    ensures var end, r := no * SizeOf(t) + SizeOf(t), Reserve(file, Required(t, no), space);
      && r.Some?
      && |r.value| == (if space.Preallocates? && |file| > end then |file| else end)
      && forall i :: 0 <= i < |r.value| ==> r.value[i] == if i < |file| then file[i] else 0
  {
    OffsetGrows(t, no, no);
  }

  /** The length is set below the end of the file and cuts off something other than zeros. */
  ghost predicate Cuts(file: seq<Byte>, required: nat, space: Space) {
    && required < OFFSETS && (space.SetsLength? || (space.Preallocates? && required == 0))
    && exists i :: required <= i < |file| && file[i] != 0
  }

  lemma UncutKeepsPages(file: seq<Byte>, required: nat, space: Space)
    requires Reserve(file, required, space).Some? && !Cuts(file, required, space)
    ensures forall pos: nat, size: nat ::
      Page(Reserve(file, required, space).value, pos, size) == Page(file, pos, size)
  {
    var after := Reserve(file, required, space).value;
    forall pos: nat, size: nat ensures Page(after, pos, size) == Page(file, pos, size) {
      assert forall i :: 0 <= i < size ==> Page(after, pos, size)[i] == Page(file, pos, size)[i];
    }
  }

  /** A cut shows in the page of some chunk id. */
  lemma CutChangesPage(file: seq<Byte>, required: nat, space: Space, t: nat)
    requires Cuts(file, required, space) && |file| <= OFFSETS && t < LEVELS
    ensures Reserve(file, required, space).Some?
    ensures exists no: nat :: (no < NO_LIMIT
      && Page(Reserve(file, required, space).value, Offset(t, no), SizeOf(t)) != Page(file, Offset(t, no), SizeOf(t)))
  {
    var i :| required <= i < |file| && file[i] != 0;
    var no, after := i / SizeOf(t), Reserve(file, required, space).value;
    assert Offset(t, no) + i % SizeOf(t) == i;
    assert Page(file, Offset(t, no), SizeOf(t))[i % SizeOf(t)] == file[i];
    assert Page(after, Offset(t, no), SizeOf(t))[i % SizeOf(t)] == 0;
  }

  /** Where no product wraps, a file that is not longer than its slots is never cut. */
  lemma NoWrapNoCut(file: seq<Byte>, t: nat, no: nat, space: Space)
    requires t < LEVELS && |file| <= Offset(t, no) && Offset(t, no + 1) < U64
    ensures !Cuts(file, Required(t, no), space)
  {
    OffsetGrows(t, no, no + 1);
  }

  /** Allocating the last 2 MB number whose end wraps to 0 empties the file. */
  lemma WrapEmptiesFile(file: seq<Byte>, space: Space)
    requires !space.Refuses?
    ensures Required(3, 0x7FF_FFFF_FFFF) == 0 && Reserve(file, 0, space) == Some([])
    ensures Cuts(file, 0, space) <==> exists i :: 0 <= i < |file| && file[i] != 0
  {
    assert Offset(3, 0x800_0000_0000) == U64;
  }

  lemma ReserveFits(file: seq<Byte>, t: nat, no: nat, space: Space)
    requires t < LEVELS && |file| <= Offset(t, no) && Reserve(file, Required(t, no), space).Some?
    ensures var after := Reserve(file, Required(t, no), space).value;
      |after| <= Offset(t, no + 1) && Page(after, Offset(t, no), SizeOf(t)) == Zeros(SizeOf(t))
  {
    hide Offset;
    OffsetGrows(t, no, no + 1);
    RemainderIsLess(Offset(t, no + 1), U64);
  }

  // ---------- Free lists as a source of numbers ----------

  /** What successive allocations take from a free list. */
  function Drained(list: seq<nat>): (numbers: seq<nat>)
    ensures |numbers| == |list|
    ensures forall k :: 0 <= k < |list| ==> numbers[k] == list[|list| - 1 - k]
  {
    if |list| == 0 then [] else [list[|list| - 1]] + Drained(list[..|list| - 1])
  }

  /** What the list still holds after `k` allocations. */
  function LeftAfter(list: seq<nat>, k: nat): seq<nat>
    requires k <= |list|
  {
    list[..|list| - k]
  }

  /** The numbers allocated from a free list are distinct if and only if the list has no number twice. */
  lemma DrainedDistinctIff(list: seq<nat>)
    ensures NoDup(Drained(list)) <==> NoDup(list)
  {
    hide Drained;
    var numbers, n := Drained(list), |list|;
    assert forall i :: 0 <= i < n ==> list[i] == numbers[n - 1 - i];
  }

  /** No number is still listed as free when it is handed out. */
  ghost predicate FreeNoLonger(list: seq<nat>) {
    forall k :: 0 <= k < |list| ==> Drained(list)[k] !in LeftAfter(list, k + 1)
  }

  lemma FreeNoLongerIff(list: seq<nat>)
    ensures FreeNoLonger(list) <==> NoDup(list)
  {
    hide Drained;
    var numbers, n := Drained(list), |list|;
    if FreeNoLonger(list) {
      forall i, j | 0 <= i < j < n ensures list[i] != list[j] {
        assert numbers[n - 1 - j] !in LeftAfter(list, n - j);
        assert LeftAfter(list, n - j)[i] == list[i];
      }
    }
  }

  // ---------- Metadata ----------

  /** The fixed part of the metadata file, then the free lists of all types one after another. */
  datatype MetaFile = Missing | MetaFile(valid: bool, counts: seq<nat>, freeCounts: seq<nat>, words: seq<nat>)

  function Flatten(lists: seq<seq<nat>>): seq<nat> {
    if |lists| == 0 then [] else Flatten(lists[..|lists| - 1]) + lists[|lists| - 1]
  }

  function Lengths(lists: seq<seq<nat>>): (lengths: seq<nat>)
    ensures |lengths| == |lists| && forall i :: 0 <= i < |lists| ==> lengths[i] == |lists[i]|
  {
    seq(|lists|, i requires 0 <= i < |lists| => |lists[i]|)
  }

  lemma {:induction false} FlattenPrefix(lists: seq<seq<nat>>, n: nat)
    requires n <= |lists|
    ensures Flatten(lists[..n]) <= Flatten(lists)
  {
    if n < |lists| {
      var init := lists[..|lists| - 1];
      FlattenPrefix(init, n);
      assert init[..n] == lists[..n];
    } else {
      assert lists[..n] == lists;
    }
  }

  lemma FlattenStep(lists: seq<seq<nat>>, n: nat)
    requires n < |lists|
    ensures Flatten(lists[..n + 1]) == Flatten(lists[..n]) + lists[n]
  {
    assert lists[..n + 1][..n] == lists[..n];
  }

  /** The lists stand one behind another in the order of the types. */
  lemma FlattenAt(lists: seq<seq<nat>>, t: nat, i: nat)
    requires t < |lists| && i < |lists[t]|
    ensures |Flatten(lists[..t])| + i < |Flatten(lists)|
    ensures Flatten(lists)[|Flatten(lists[..t])| + i] == lists[t][i]
  {
    FlattenStep(lists, t);
    FlattenPrefix(lists, t + 1);
  }

  ghost predicate InBounds(list: seq<nat>, count: nat) {
    forall i :: 0 <= i < |list| ==> list[i] < count
  }

  /** The metadata file holds these counts and free lists. */
  ghost predicate Stores(meta: MetaFile, counts: seq<nat>, lists: seq<seq<nat>>) {
    && meta.MetaFile? && meta.valid && meta.counts == counts && meta.freeCounts == Lengths(lists)
    && Flatten(lists) <= meta.words
  }

  // ---------- Slots and pages ----------

  /** Numbers on a free list are allocated slots, and none is listed twice. */
  ghost predicate SlotsOk(counts: seq<nat>, freeLists: seq<seq<nat>>) {
    && |counts| == |freeLists| == LEVELS
    && forall t :: 0 <= t < LEVELS ==> InBounds(freeLists[t], counts[t]) && NoDup(freeLists[t])
  }

  /** No file is longer than its slots. */
  ghost predicate FilesFit(counts: seq<nat>, files: seq<seq<Byte>>) {
    && |counts| == |files| == LEVELS
    && forall t :: 0 <= t < LEVELS ==> |files[t]| <= Offset(t, counts[t])
  }

  ghost predicate LiveIn(counts: seq<nat>, freeLists: seq<seq<nat>>, id: nat)
    requires |counts| == |freeLists| == LEVELS
  {
    TypeOf(id) < LEVELS && NoOf(id) < counts[TypeOf(id)] && NoOf(id) !in freeLists[TypeOf(id)]
  }

  ghost function PageIn(files: seq<seq<Byte>>, id: nat): seq<Byte>
    requires |files| == LEVELS && TypeOf(id) < LEVELS
  {
    Page(files[TypeOf(id)], Offset(TypeOf(id), NoOf(id)), SizeOf(TypeOf(id)))
  }

  /** Written chunks are allocated and hold what was written. */
  ghost predicate Holds(counts: seq<nat>, freeLists: seq<seq<nat>>, files: seq<seq<Byte>>, written: map<nat, seq<Byte>>) {
    && |counts| == |freeLists| == |files| == LEVELS
    && forall id :: id in written ==> LiveIn(counts, freeLists, id) && written[id] == PageIn(files, id)
  }

  /** Taking the last number off a free list: it is live unless it is out of range or listed once more. */
  lemma PopGains(counts: seq<nat>, freeLists: seq<seq<nat>>, t: nat)
    requires |counts| == |freeLists| == LEVELS && t < LEVELS && |freeLists[t]| > 0
    ensures var list := freeLists[t];
      var no, rest := list[|list| - 1], list[..|list| - 1];
      var after := freeLists[t := rest];
      && (SlotsOk(counts, freeLists) ==> SlotsOk(counts, after) && no < counts[t] && no !in rest)
      && (forall x: nat :: TypeOf(x) == t && NoOf(x) == no ==> !LiveIn(counts, freeLists, x))
      && forall x: nat :: LiveIn(counts, after, x) <==>
           if TypeOf(x) == t && NoOf(x) == no then no < counts[t] && no !in rest else LiveIn(counts, freeLists, x)
  {
    hide TypeOf, NoOf;
    var list := freeLists[t];
    if SlotsOk(counts, freeLists) {
      PoppedList(list, counts[t]);
    }
    assert list == list[..|list| - 1] + [list[|list| - 1]];
    InAppend(list[..|list| - 1], list[|list| - 1]);
  }

  lemma NextGains(counts: seq<nat>, freeLists: seq<seq<nat>>, t: nat)
    requires |counts| == |freeLists| == LEVELS && t < LEVELS && |freeLists[t]| == 0
    ensures var after := counts[t := counts[t] + 1];
      && (SlotsOk(counts, freeLists) ==> SlotsOk(after, freeLists))
      && (forall x: nat :: TypeOf(x) == t && NoOf(x) == counts[t] ==> !LiveIn(counts, freeLists, x))
      && forall x: nat :: LiveIn(after, freeLists, x) <==>
           LiveIn(counts, freeLists, x) || (TypeOf(x) == t && NoOf(x) == counts[t])
  {
    hide TypeOf, NoOf;
  }

  ghost predicate SamePages(files: seq<seq<Byte>>, after: seq<seq<Byte>>)
    requires |files| == |after| == LEVELS
  {
    forall x: nat :: TypeOf(x) < LEVELS ==> PageIn(after, x) == PageIn(files, x)
  }

  /** Reserving space leaves every page as it was, if and only if it does not cut the file. */
  lemma ReservedPagesIff(files: seq<seq<Byte>>, t: nat, required: nat, space: Space)
    requires |files| == LEVELS && t < LEVELS && |files[t]| <= OFFSETS && Reserve(files[t], required, space).Some?
    ensures SamePages(files, files[t := Reserve(files[t], required, space).value]) <==> !Cuts(files[t], required, space)
  {
    hide Reserve, Page, Offset, SizeOf, Cuts;
    var after := files[t := Reserve(files[t], required, space).value];
    if Cuts(files[t], required, space) {
      CutChangesPage(files[t], required, space, t);
      var no: nat :| no < NO_LIMIT && Page(after[t], Offset(t, no), SizeOf(t)) != Page(files[t], Offset(t, no), SizeOf(t));
      var x := MakeId(t, no).value;
      IdsRoundTrip(t, no, x);
      assert PageIn(after, x) != PageIn(files, x);
    } else {
      UncutKeepsPages(files[t], required, space);
    }
  }

  /** The chunk that is allocated next reads as zeros. */
  lemma NextIsZero(counts: seq<nat>, files: seq<seq<Byte>>, t: nat, space: Space)
    requires FilesFit(counts, files) && t < LEVELS && Reserve(files[t], Required(t, counts[t]), space).Some?
    ensures var after := files[t := Reserve(files[t], Required(t, counts[t]), space).value];
      && FilesFit(counts[t := counts[t] + 1], after)
      && forall x: nat :: TypeOf(x) == t && NoOf(x) == counts[t] ==> PageIn(after, x) == Zeros(SizeOf(t))
  {
    hide TypeOf, NoOf, Page, Offset, SizeOf, Reserve, Required;
    ReserveFits(files[t], t, counts[t], space);
  }

  lemma FitsFile(counts: seq<nat>, files: seq<seq<Byte>>, t: nat)
    requires FilesFit(counts, files) && t < LEVELS
    ensures |files[t]| <= Offset(t, counts[t])
  {
  }

  lemma NextFits(counts: seq<nat>, files: seq<seq<Byte>>, t: nat)
    requires FilesFit(counts, files) && t < LEVELS
    ensures FilesFit(counts[t := counts[t] + 1], files)
  {
    OffsetGrows(t, counts[t], counts[t] + 1);
  }

  /** The writes that can still be read back. */
  ghost function Surviving(written: map<nat, seq<Byte>>, files: seq<seq<Byte>>, after: seq<seq<Byte>>):
      (left: map<nat, seq<Byte>>)
    requires |files| == |after| == LEVELS
    ensures SamePages(files, after) ==> left == written
    ensures forall id :: id in left <==> id in written && (TypeOf(id) < LEVELS ==> PageIn(after, id) == PageIn(files, id))
    ensures forall id :: id in left ==> left[id] == written[id]
  {
    map id | id in written && (TypeOf(id) < LEVELS ==> PageIn(after, id) == PageIn(files, id)) :: written[id]
  }

  lemma HoldsStays(counts: seq<nat>, freeLists: seq<seq<nat>>, files: seq<seq<Byte>>, written: map<nat, seq<Byte>>,
                   counts': seq<nat>, freeLists': seq<seq<nat>>, files': seq<seq<Byte>>)
    requires Holds(counts, freeLists, files, written) && |counts'| == |freeLists'| == |files'| == LEVELS
    requires forall x: nat :: LiveIn(counts, freeLists, x) ==> LiveIn(counts', freeLists', x)
    ensures Holds(counts', freeLists', files', Surviving(written, files, files'))
  {
    hide PageIn, TypeOf, NoOf;
  }

  lemma StillHolds(counts: seq<nat>, freeLists: seq<seq<nat>>, files: seq<seq<Byte>>, written: map<nat, seq<Byte>>,
                   counts': seq<nat>, freeLists': seq<seq<nat>>, files': seq<seq<Byte>>)
    requires |counts| == |freeLists| == |files| == LEVELS && |counts'| == |freeLists'| == |files'| == LEVELS
    ensures (Holds(counts, freeLists, files, written)
             && forall x: nat :: LiveIn(counts, freeLists, x) ==> LiveIn(counts', freeLists', x)) ==>
      Holds(counts', freeLists', files', Surviving(written, files, files'))
  {
    hide Holds, Surviving, LiveIn;
    if Holds(counts, freeLists, files, written)
      && (forall x: nat :: LiveIn(counts, freeLists, x) ==> LiveIn(counts', freeLists', x))
    {
      HoldsStays(counts, freeLists, files, written, counts', freeLists', files');
    }
  }

  lemma SameFiles(files: seq<seq<Byte>>)
    requires |files| == LEVELS
    ensures SamePages(files, files)
  {
  }

  lemma RefusedCutsNothing(file: seq<Byte>, required: nat, space: Space)
    requires Reserve(file, required, space).None?
    ensures !Cuts(file, required, space)
  {
  }

  lemma ReservedLength(file: seq<Byte>, required: nat, space: Space)
    requires Reserve(file, required, space).Some? && |file| <= OFFSETS
    ensures |Reserve(file, required, space).value| <= OFFSETS
  {
  }

  lemma PushLoses(counts: seq<nat>, freeLists: seq<seq<nat>>, files: seq<seq<Byte>>, written: map<nat, seq<Byte>>,
                  id: nat)
    requires |counts| == |freeLists| == |files| == LEVELS && LiveIn(counts, freeLists, id)
    ensures var after := freeLists[TypeOf(id) := freeLists[TypeOf(id)] + [NoOf(id)]];
      && (SlotsOk(counts, freeLists) ==> SlotsOk(counts, after))
      && (Holds(counts, freeLists, files, written) ==> Holds(counts, after, files, written - {id}))
      && forall x: nat :: LiveIn(counts, after, x) == (LiveIn(counts, freeLists, x) && x != id)
  {
    hide TypeOf, NoOf, PageIn;
    IdFacts();
    InAppend(freeLists[TypeOf(id)], NoOf(id));
    if SlotsOk(counts, freeLists) {
      PushedList(freeLists[TypeOf(id)], counts[TypeOf(id)], NoOf(id));
    }
  }

  /** Rewriting one whole page of a live chunk. */
  lemma RewriteKeeps(counts: seq<nat>, freeLists: seq<seq<nat>>, files: seq<seq<Byte>>, written: map<nat, seq<Byte>>,
                     id: nat, page: seq<Byte>)
    requires |counts| == |freeLists| == |files| == LEVELS && LiveIn(counts, freeLists, id)
    requires |page| == SizeOf(TypeOf(id))
    ensures var t := TypeOf(id);
      var after := files[t := WriteAt(files[t], Offset(t, NoOf(id)), page)];
      && (FilesFit(counts, files) ==> FilesFit(counts, after))
      && (Holds(counts, freeLists, files, written) ==> Holds(counts, freeLists, after, written[id := page]))
      && |after[t]| == (if |files[t]| > Offset(t, NoOf(id)) + SizeOf(t) then |files[t]| else Offset(t, NoOf(id)) + SizeOf(t))
      && PageIn(after, id) == page
      && forall x: nat :: x != id && TypeOf(x) < LEVELS ==> PageIn(after, x) == PageIn(files, x)
  {
    hide TypeOf, NoOf, Page, Offset, SizeOf, WriteAt;
    IdFacts();
    var t, no := TypeOf(id), NoOf(id);
    Rewritten(files[t], t, no, page);
    OffsetGrows(t, no, no);
    OffsetGrows(t, no + 1, counts[t]);
    WrittenLength(files[t], t, no, page);
    var after := files[t := WriteAt(files[t], Offset(t, no), page)];
    forall x: nat | x != id && TypeOf(x) < LEVELS ensures PageIn(after, x) == PageIn(files, x) {
      if TypeOf(x) == t {
        assert NoOf(x) != no;
      }
    }
  }

  class Manager {
    var counts: seq<nat>
    var freeCounts: seq<nat>
    var freeLists: seq<seq<nat>>
    var files: seq<seq<Byte>>
    var meta: MetaFile
    /** What was last written to each chunk that is still allocated. */
    ghost var written: map<nat, seq<Byte>>

    /** Counts are unsigned and file lengths signed 64-bit numbers. */
    ghost predicate Shape()
      reads this
    {
      && |counts| == |freeCounts| == |freeLists| == |files| == LEVELS
      && (forall t :: 0 <= t < LEVELS ==> counts[t] < U64 && |files[t]| <= OFFSETS)
      && (meta.MetaFile? ==> |meta.counts| == |meta.freeCounts| == LEVELS
                             && forall t :: 0 <= t < LEVELS ==> meta.counts[t] < U64)
    }

    /** Numbers on a free list are allocated slots, and none is listed twice. */
    ghost predicate Valid()
      reads this
    {
      && Shape() && freeCounts == Lengths(freeLists)
      && SlotsOk(counts, freeLists) && FilesFit(counts, files) && Holds(counts, freeLists, files, written)
    }

    /** The chunk has been allocated and not deleted since. */
    ghost predicate Live(id: nat)
      reads this
      requires Shape()
    {
      LiveIn(counts, freeLists, id)
    }

    /** The bytes of a chunk as a reader sees them. */
    ghost function PageOf(id: nat): seq<Byte>
      reads this
      requires Shape() && TypeOf(id) < LEVELS
    {
      PageIn(files, id)
    }

    /** A manager over empty files. */
    constructor ()
      ensures Valid() && written == map[] && counts == seq(LEVELS, _ => 0) && freeLists == seq(LEVELS, _ => [])
    {
      counts, freeCounts, freeLists := seq(LEVELS, _ => 0), seq(LEVELS, _ => 0), seq(LEVELS, _ => []);
      files, meta, written := seq(LEVELS, _ => []), Missing, map[];
    }

    /** Why a chunk id cannot be used, if it cannot. */
    method Validate(id: nat) returns (e: Option<Error>)
      requires Shape()
      ensures e.None? <==> Live(id)
      ensures e == Some(OutOfRange) <==> TypeOf(id) >= LEVELS || NoOf(id) >= counts[TypeOf(id)]
      ensures e == Some(Deleted) <==> TypeOf(id) < LEVELS && NoOf(id) < counts[TypeOf(id)] && NoOf(id) in freeLists[TypeOf(id)]
    {
      var t, no := TypeOf(id), NoOf(id);
      if t >= LEVELS || no >= counts[t] {
        return Some(OutOfRange);
      }
      if no in freeLists[t] {
        return Some(Deleted);
      }
      return None;
    }

    /** The next allocation of this type takes a number that has never been used. */
    ghost predicate TakesNext(t: nat)
      reads this
      requires Shape()
    {
      t < LEVELS && |freeLists[t]| == 0
    }

    /** The next allocation of this type cuts the chunk file. */
    ghost predicate CutsNext(t: nat, space: Space)
      reads this
      requires Shape()
    {
      TakesNext(t) && Cuts(files[t], Required(t, counts[t]), space)
    }

    /** The next allocation of this type finds no space. */
    ghost predicate FailsNext(t: nat, space: Space)
      reads this
      requires Shape()
    {
      TakesNext(t) && Reserve(files[t], Required(t, counts[t]), space).None?
    }

    /** Reuse the chunk deleted last, or take the next number and reserve its space, which may fail. */
    method Allocate(t: nat, space: Space) returns (r: Result<nat, Error>)
      requires Shape()
      modifies this
      ensures Shape() && meta == old(meta)
      ensures old(Valid() && (TakesNext(t) ==> counts[t] + 1 < U64)) ==> Valid()
      ensures t >= LEVELS ==> r == Err(OutOfRange) && counts == old(counts) && freeLists == old(freeLists) && files == old(files)
      ensures t < LEVELS && old(|freeLists[t]|) > 0 ==>
        && var list := old(freeLists[t]);
        var no, rest := list[|list| - 1], list[..|list| - 1];
        && r == MakeId(t, no) && freeLists == old(freeLists)[t := rest] && counts == old(counts) && files == old(files)
        && forall id: nat :: Live(id) <==>
             if TypeOf(id) == t && NoOf(id) == no then no < counts[t] && no !in rest else old(Live(id))
      ensures old(TakesNext(t)) ==>
        && counts == old(counts)[t := (old(counts[t]) + 1) % U64] && freeLists == old(freeLists)
        && r == (if old(FailsNext(t, space)) then Err(IoError) else MakeId(t, old(counts[t])))
        && files == (if old(FailsNext(t, space)) then old(files) else
                     old(files)[t := old(Reserve(files[t], Required(t, counts[t]), space).value)])
        && (old(counts[t]) + 1 < U64 ==> forall id: nat :: Live(id) <==>
              old(Live(id)) || (TypeOf(id) == t && NoOf(id) == old(counts[t])))
        && (r.Ok? && old(FilesFit(counts, files)) ==> PageOf(r.value) == Zeros(SizeOf(t)))
      ensures r.Ok? ==> TypeOf(r.value) == t < LEVELS
      ensures r.Ok? && old(Valid()) ==> Live(r.value) && !old(Live(r.value))
      ensures r.Ok? && old(Valid()) ==> forall id: nat :: id != r.value ==> Live(id) == old(Live(id))
      ensures SamePages(old(files), files) <==> !old(CutsNext(t, space))
      ensures old(Valid() && (TakesNext(t) ==> Offset(t, counts[t] + 1) < U64)) ==> SamePages(old(files), files)
      ensures written == Surviving(old(written), old(files), files)
    {
      hide TypeOf, NoOf, SizeOf, Offset, PageIn, SlotsOk, FilesFit, Holds, LiveIn, Reserve, Cuts, Required, SamePages;
      SameFiles(files);
      if Valid() && TakesNext(t) && Offset(t, counts[t] + 1) < U64 {
        FitsFile(counts, files, t);
        NoWrapNoCut(files[t], t, counts[t], space);
      }
      if t >= LEVELS {
        return Err(OutOfRange);
      }
      IdFacts();
      if |freeLists[t]| > 0 {
        r := Reuse(t);
      } else {
        r := TakeNext(t, space);
      }
    }

    method Reuse(t: nat) returns (r: Result<nat, Error>)
      requires Shape() && t < LEVELS && |freeLists[t]| > 0
      modifies this`freeLists, this`freeCounts
      ensures Shape() && (old(Valid()) ==> Valid())
      ensures var list := old(freeLists[t]);
        var no, rest := list[|list| - 1], list[..|list| - 1];
        && r == MakeId(t, no) && freeLists == old(freeLists)[t := rest]
        && (forall id: nat :: TypeOf(id) == t && NoOf(id) == no ==> !old(Live(id)) && (old(Valid()) ==> Live(id)))
        && forall id: nat :: Live(id) <==>
             if TypeOf(id) == t && NoOf(id) == no then no < counts[t] && no !in rest else old(Live(id))
    {
      hide TypeOf, NoOf, SizeOf, Offset, PageIn, SlotsOk, FilesFit, Holds, LiveIn, SamePages;
      SameFiles(files);
      var list := freeLists[t];
      var no := list[|list| - 1];
      PopGains(counts, freeLists, t);
      StillHolds(counts, freeLists, files, written, counts, freeLists[t := list[..|list| - 1]], files);
      freeLists := freeLists[t := list[..|list| - 1]];
      freeCounts := freeCounts[t := |freeLists[t]|];
      return MakeId(t, no);
    }

    method TakeNext(t: nat, space: Space) returns (r: Result<nat, Error>)
      requires Shape() && TakesNext(t)
      modifies this`counts, this`files, this`written
      ensures Shape() && (old(Valid()) && old(counts[t]) + 1 < U64 ==> Valid())
      ensures counts == old(counts)[t := (old(counts[t]) + 1) % U64]
      ensures r == (if old(FailsNext(t, space)) then Err(IoError) else MakeId(t, old(counts[t])))
      ensures files == (if old(FailsNext(t, space)) then old(files) else
                        old(files)[t := old(Reserve(files[t], Required(t, counts[t]), space).value)])
      ensures forall id: nat :: TypeOf(id) == t && NoOf(id) == old(counts[t]) ==> !old(Live(id))
      ensures old(counts[t]) + 1 < U64 ==> forall id: nat ::
        Live(id) <==> old(Live(id)) || (TypeOf(id) == t && NoOf(id) == old(counts[t]))
      ensures r.Ok? && old(FilesFit(counts, files)) ==>
        forall id: nat :: TypeOf(id) == t && NoOf(id) == old(counts[t]) ==> PageOf(id) == Zeros(SizeOf(t))
      ensures SamePages(old(files), files) <==> !old(CutsNext(t, space))
      ensures written == Surviving(old(written), old(files), files)
    {
      hide TypeOf, NoOf, SizeOf, Offset, PageIn, SlotsOk, FilesFit, Holds, LiveIn, Reserve, Cuts, Required, SamePages;
      SameFiles(files);
      var no := counts[t];
      NextGains(counts, freeLists, t);
      counts := counts[t := (no + 1) % U64];
      var reserved := Reserve(files[t], Required(t, no), space);
      if reserved.None? {
        RefusedCutsNothing(files[t], Required(t, no), space);
        if old(FilesFit(counts, files)) {
          NextFits(old(counts), files, t);
        }
        StillHolds(old(counts), freeLists, files, written, counts, freeLists, files);
        return Err(IoError);
      }
      ReservedPagesIff(files, t, Required(t, no), space);
      ReservedLength(files[t], Required(t, no), space);
      if old(FilesFit(counts, files)) {
        NextIsZero(old(counts), files, t, space);
      }
      StillHolds(old(counts), freeLists, files, written, counts, freeLists, files[t := reserved.value]);
      written := Surviving(written, files, files[t := reserved.value]);
      files := files[t := reserved.value];
      return MakeId(t, no);
    }

    /** Put a chunk on its free list. */
    method Delete(id: nat) returns (e: Option<Error>)
      requires Shape()
      modifies this
      ensures Shape() && (old(Valid()) ==> Valid())
      ensures files == old(files) && counts == old(counts) && meta == old(meta)
      ensures e.None? <==> old(Live(id))
      ensures e.Some? ==> freeLists == old(freeLists) && written == old(written)
      ensures e.None? ==> freeLists == old(freeLists)[TypeOf(id) := old(freeLists[TypeOf(id)]) + [NoOf(id)]]
      ensures e.None? ==> written == old(written) - {id}
      ensures forall x: nat :: Live(x) == (old(Live(x)) && x != id)
    {
      hide TypeOf, NoOf, SizeOf, Offset, PageIn, SlotsOk, FilesFit, Holds;
      e := Validate(id);
      if e.Some? {
        return;
      }
      var t, no := TypeOf(id), NoOf(id);
      PushLoses(counts, freeLists, files, written, id);
      freeLists := freeLists[t := freeLists[t] + [no]];
      freeCounts := freeCounts[t := |freeLists[t]|];
      written := written - {id};
    }

    /** Write a page: the data, then zeros up to the chunk size. */
    method Write(id: nat, data: seq<Byte>) returns (e: Option<Error>)
      requires Shape()
      modifies this`files, this`written
      ensures Shape() && (old(Valid()) ==> Valid())
      ensures e.None? <==>
        && Live(id) && Decode(id).Ok? && |data| <= SizeOf(TypeOf(id))
        && Offset(TypeOf(id), NoOf(id)) + SizeOf(TypeOf(id)) <= OFFSETS
      ensures e.Some? ==> files == old(files) && written == old(written)
      ensures e.None? ==>
        var page := data + Zeros(SizeOf(TypeOf(id)) - |data|);
        PageOf(id) == page && written == old(written)[id := page]
      ensures forall x: nat :: x != id && TypeOf(x) < LEVELS ==> PageOf(x) == old(PageOf(x))
      ensures e == Some(InvalidArgument) <==>
        Live(id) && Decode(id).Ok? && |data| > SizeOf(TypeOf(id))
    {
      hide TypeOf, NoOf, SizeOf, Page, Offset, WriteAt, PageIn, SlotsOk, FilesFit, Holds;
      e := Validate(id);
      if e.Some? {
        return;
      }
      var decoded := Decode(id);
      if decoded.Err? {
        return Some(decoded.error);
      }
      var addr := decoded.value;
      DecodedIs(id);
      if |data| > addr.size {
        return Some(InvalidArgument);
      }
      if addr.offset + addr.size > OFFSETS {
        return Some(IoError);
      }
      var file := WriteAt(files[addr.t], addr.offset, data);
      var pos, remaining := addr.offset + |data|, addr.size - |data|;
      ghost var done := data;
      while remaining > 0
        invariant files == old(files) && written == old(written) && remaining >= 0
        invariant remaining + |done| == addr.size && pos == addr.offset + |done|
        invariant done == data + Zeros(|done| - |data|) && |done| >= |data|
        invariant file == WriteAt(old(files[addr.t]), addr.offset, done)
      {
        var bytes := if remaining < ZERO_PAGE then remaining else ZERO_PAGE;
        WriteTwice(old(files[addr.t]), addr.offset, done, Zeros(bytes));
        file := WriteAt(file, pos, Zeros(bytes));
        done := done + Zeros(bytes);
        pos, remaining := pos + bytes, remaining - bytes;
      }
      RewriteKeeps(counts, freeLists, files, written, id, done);
      files := files[addr.t := file];
      written := written[id := done];
    }

    /**
      Allocate and write; when the write fails the new chunk is deleted again. After an error a
      chunk is newly live only if its number was taken and no space was found for it.
     */
    method WriteNew(t: nat, data: seq<Byte>, space: Space) returns (r: Result<nat, Error>)
      requires Shape()
      modifies this
      ensures Shape()
      ensures old(Valid() && (TakesNext(t) ==> counts[t] + 1 < U64)) ==>
        && Valid()
        && (r.Ok? ==>
              && t < LEVELS && |data| <= SizeOf(t) && TypeOf(r.value) == t && !old(Live(r.value))
              && (forall id: nat :: Live(id) <==> old(Live(id)) || id == r.value)
              && PageOf(r.value) == data + Zeros(SizeOf(t) - |data|))
        && (r.Err? ==> forall id: nat :: Live(id) <==>
              old(Live(id)) || (old(FailsNext(t, space)) && TypeOf(id) == t && NoOf(id) == old(counts[t])))
        && (!old(CutsNext(t, space)) ==>
              forall id: nat :: old(Live(id)) ==> PageOf(id) == old(PageOf(id)))
      ensures t < LEVELS && |data| > SizeOf(t) ==> r.Err?
    {
      hide TypeOf, NoOf, SizeOf, Page, Offset, Decode, PageIn, SlotsOk, FilesFit, Holds, Reserve, Cuts, Required;
      IdFacts();
      r := Allocate(t, space);
      if r.Err? {
        return;
      }
      var e := Write(r.value, data);
      if e.Some? {
        var deleted := Delete(r.value);
        return Err(if deleted.Some? then deleted.value else e.value);
      }
    }

    /** Read a page through reads that may return fewer bytes than asked, until the end of the file. */
    method Load(id: nat, dst: array<Byte>) returns (e: Option<Error>)
      requires Shape() && (TypeOf(id) < LEVELS ==> dst.Length >= SizeOf(TypeOf(id)))
      modifies dst
      ensures e.None? <==>
        Live(id) && Decode(id).Ok? && Offset(TypeOf(id), NoOf(id)) + SizeOf(TypeOf(id)) <= OFFSETS
      ensures e.Some? ==> dst[..] == old(dst[..])
      ensures e.None? ==> dst[..] == PageOf(id) + old(dst[..])[SizeOf(TypeOf(id))..]
      ensures e.None? && Valid() && id in written ==> dst[..SizeOf(TypeOf(id))] == written[id]
    {
      hide TypeOf, NoOf, SizeOf, Offset, SlotsOk, FilesFit;
      e := Validate(id);
      if e.Some? {
        return;
      }
      var decoded := Decode(id);
      if decoded.Err? {
        return Some(decoded.error);
      }
      var addr := decoded.value;
      DecodedIs(id);
      if addr.offset + addr.size > OFFSETS {
        return Some(IoError);
      }
      var file, total := files[addr.t], 0;
      ghost var page := Page(file, addr.offset, addr.size);
      ghost var tail := dst[addr.size..];
      while total < addr.size
        invariant total <= addr.size && dst[..total] == page[..total] && dst[addr.size..] == tail
      {
        if addr.offset + total >= |file| {
          for i := total to addr.size
            invariant dst[..i] == page[..i] && dst[addr.size..] == tail
          {
            dst[i] := 0;
          }
          break;
        }
        var most := if |file| - addr.offset < addr.size then |file| - addr.offset - total else addr.size - total;
        var got :| 1 <= got <= most;
        for i := total to total + got
          invariant dst[..i] == page[..i] && dst[addr.size..] == tail
        {
          dst[i] := file[addr.offset + i];
        }
        total := total + got;
      }
      assert dst[..] == dst[..addr.size] + dst[addr.size..];
      assert dst[..addr.size] == page[..addr.size] == page;
      return None;
    }

    /** Write the fixed part and the free lists, then cut the file behind them. */
    method FlushMeta()
      requires Shape()
      modifies this`meta, this`freeCounts
      ensures Shape() && Stores(meta, counts, freeLists) && freeCounts == Lengths(freeLists)
      ensures meta.words == Flatten(freeLists)
    {
      freeCounts := Lengths(freeLists);
      var words := if meta.MetaFile? then meta.words else [];
      var at := 0;
      for t := 0 to LEVELS
        invariant at <= |words| && words[..at] == Flatten(freeLists[..t])
        invariant freeCounts == Lengths(freeLists) && meta == old(meta)
      {
        FlattenStep(freeLists, t);
        var list := freeLists[t];
        ghost var before := words[..at];
        var rest := if at + |list| <= |words| then words[at + |list|..] else [];
        words := words[..at] + list + rest;
        at := at + |list|;
        assert words[..at] == before + list;
      }
      assert freeLists[..LEVELS] == freeLists;
      meta := MetaFile(true, counts, freeCounts, words[..at]);
    }

    /** Start afresh, or read what a metadata file stores; numbers out of range are refused. */
    method LoadMeta(truncate: bool) returns (e: Option<Error>)
      requires Shape()
      modifies this`counts, this`freeCounts, this`freeLists, this`meta, this`written
      ensures truncate || old(meta).Missing? ==>
        && e == None && counts == seq(LEVELS, _ => 0) && freeLists == seq(LEVELS, _ => []) && Stores(meta, counts, freeLists)
      ensures !truncate && old(meta).MetaFile? ==>
        && meta == old(meta)
        && (e.None? <==> exists lists :: Accepted(old(meta), lists))
        && (e.None? ==> Accepted(old(meta), freeLists) && counts == old(meta).counts)
      ensures e.None? ==> Shape() && freeCounts == Lengths(freeLists) && written == map[]
      ensures e.None? ==> forall t :: 0 <= t < LEVELS ==> InBounds(freeLists[t], counts[t])
      ensures e.None? ==>
        (Valid() <==> FilesFit(counts, files) && forall t :: 0 <= t < LEVELS ==> NoDup(freeLists[t]))
    {
      hide Stores, Accepted, SlotsOk, FilesFit, Holds;
      written := map[];
      freeLists := seq(LEVELS, _ => []);
      if truncate || meta.Missing? {
        counts, freeCounts := seq(LEVELS, _ => 0), seq(LEVELS, _ => 0);
        LoadedValid(counts, freeLists, files);
        FlushMeta();
        return None;
      }
      counts, freeCounts := meta.counts, meta.freeCounts;
      if !meta.valid {
        NotAccepted(meta);
        return Some(BadMetadata);
      }
      var lists;
      e, lists := ReadLists(meta);
      if e.None? {
        freeLists, freeCounts := lists, Lengths(lists);
        AcceptedInBounds(meta, lists);
        LoadedValid(counts, lists, files);
      }
    }

    /** Flushing on close and loading on open brings back the same counts and free lists. */
    method Reopen() returns (e: Option<Error>)
      requires Valid()
      modifies this
      ensures e == None && counts == old(counts) && freeLists == old(freeLists) && files == old(files) && Valid()
      ensures forall id: nat :: Live(id) == old(Live(id))
    {
      hide Stores, Accepted, SlotsOk, FilesFit, Holds, LiveIn;
      FlushMeta();
      FlushedIsAccepted(meta, counts, freeLists);
      e := LoadMeta(false);
      AcceptedUnique(meta, freeLists, old(freeLists));
      NothingHeld(counts, freeLists, files);
    }
  }

  /** The file stores these free lists, and every number is below its count. */
  ghost predicate Accepted(meta: MetaFile, lists: seq<seq<nat>>) {
    && |lists| == LEVELS && meta.MetaFile? && |meta.counts| == |meta.freeCounts| == LEVELS
    && Stores(meta, meta.counts, lists)
    && forall t :: 0 <= t < LEVELS ==> InBounds(lists[t], meta.counts[t])
  }

  /** Read `n` words, all of which must be below `count`. */
  method ReadList(words: seq<nat>, at: nat, n: nat, count: nat) returns (ok: bool, list: seq<nat>)
    requires at <= |words|
    ensures ok <==> at + n <= |words| && InBounds(words[at..at + n], count)
    ensures ok ==> list == words[at..at + n]
  {
    if at + n > |words| {
      return false, [];
    }
    list := words[at..at + n];
    for k := 0 to n
      invariant forall i :: 0 <= i < k ==> list[i] < count
    {
      if list[k] >= count {
        return false, [];
      }
    }
    return true, list;
  }

  /** Read the free lists of all types one after another. */
  method ReadLists(meta: MetaFile) returns (e: Option<Error>, lists: seq<seq<nat>>)
    requires meta.MetaFile? && meta.valid && |meta.counts| == |meta.freeCounts| == LEVELS
    ensures e.None? <==> exists stored :: Accepted(meta, stored)
    ensures e.None? ==> Accepted(meta, lists) && |lists| == LEVELS
  {
    hide Accepted, Flatten;
    ghost var known := None;
    if exists stored :: Accepted(meta, stored) {
      var stored :| Accepted(meta, stored);
      AcceptedLength(meta, stored);
      known := Some(stored);
    }
    lists := [];
    var at := 0;
    NoLists();
    for t := 0 to LEVELS
      invariant |lists| == t && at == |Flatten(lists)| <= |meta.words| && Flatten(lists) == meta.words[..at]
      invariant forall k :: 0 <= k < t ==> |lists[k]| == meta.freeCounts[k] && InBounds(lists[k], meta.counts[k])
      invariant known.Some? ==> |known.value| == LEVELS && lists == known.value[..t]
    {
      if known.Some? {
        NextList(meta, known.value, t);
      }
      var n := meta.freeCounts[t];
      var ok, list := ReadList(meta.words, at, n, meta.counts[t]);
      if !ok {
        return Some(BadMetadata), lists;
      }
      AppendList(lists, list);
      lists := lists + [list];
      at := at + n;
    }
    MakeAccepted(meta, lists);
    return None, lists;
  }

  lemma NoLists()
    ensures Flatten([]) == []
  {
  }

  lemma AppendList(lists: seq<seq<nat>>, list: seq<nat>)
    ensures Flatten(lists + [list]) == Flatten(lists) + list
  {
    assert (lists + [list])[..|lists|] == lists;
  }

  lemma NotAccepted(meta: MetaFile)
    requires meta.MetaFile? && !meta.valid
    ensures forall lists :: !Accepted(meta, lists)
  {
  }

  lemma NextList(meta: MetaFile, lists: seq<seq<nat>>, t: nat)
    requires Accepted(meta, lists) && t < LEVELS
    ensures var at := |Flatten(lists[..t])|;
      && meta.freeCounts[t] == |lists[t]| && at + |lists[t]| <= |meta.words|
      && meta.words[at..at + |lists[t]|] == lists[t] && InBounds(lists[t], meta.counts[t])
    ensures lists[..t + 1] == lists[..t] + [lists[t]]
  {
    hide Flatten;
    FlattenStep(lists, t);
    FlattenPrefix(lists, t + 1);
    var at := |Flatten(lists[..t])|;
    var flat := Flatten(lists[..t + 1]);
    assert flat[at..at + |lists[t]|] == lists[t];
    assert flat <= meta.words;
    assert meta.words[at..at + |lists[t]|] == flat[at..at + |lists[t]|];
  }

  lemma MakeAccepted(meta: MetaFile, lists: seq<seq<nat>>)
    requires meta.MetaFile? && meta.valid && |lists| == LEVELS && |meta.counts| == |meta.freeCounts| == LEVELS
    requires forall k :: 0 <= k < LEVELS ==> |lists[k]| == meta.freeCounts[k] && InBounds(lists[k], meta.counts[k])
    requires Flatten(lists) <= meta.words
    ensures Accepted(meta, lists)
  {
    assert meta.freeCounts == Lengths(lists);
  }

  lemma FlushedIsAccepted(meta: MetaFile, counts: seq<nat>, lists: seq<seq<nat>>)
    requires Stores(meta, counts, lists) && SlotsOk(counts, lists)
    ensures Accepted(meta, lists) && meta.counts == counts
  {
  }

  /** A metadata file stores one set of free lists. */
  lemma AcceptedUnique(meta: MetaFile, a: seq<seq<nat>>, b: seq<seq<nat>>)
    requires Accepted(meta, a) && Accepted(meta, b)
    ensures a == b
  {
    SamePrefix(meta, a, b, LEVELS);
    assert a[..LEVELS] == a && b[..LEVELS] == b;
  }

  lemma {:induction false} SamePrefix(meta: MetaFile, a: seq<seq<nat>>, b: seq<seq<nat>>, n: nat)
    requires Accepted(meta, a) && Accepted(meta, b) && n <= LEVELS
    ensures a[..n] == b[..n]
  {
    hide Accepted;
    AcceptedLength(meta, a);
    AcceptedLength(meta, b);
    if n > 0 {
      SamePrefix(meta, a, b, n - 1);
      NextList(meta, a, n - 1);
      NextList(meta, b, n - 1);
    }
  }

  lemma AcceptedLength(meta: MetaFile, a: seq<seq<nat>>)
    requires Accepted(meta, a)
    ensures |a| == LEVELS && meta.MetaFile? && |meta.freeCounts| == |meta.counts| == LEVELS
  {
  }

  /** Allocate until the free list is empty, asking each time whether the number is accepted. */
  method HandOutFree(m: Manager, t: nat, space: Space) returns (numbers: seq<nat>, accepted: seq<bool>)
    requires m.Shape() && t < LEVELS && m.counts[t] <= NO_LIMIT && InBounds(m.freeLists[t], m.counts[t])
    modifies m
    ensures m.Shape() && m.freeLists[t] == [] && numbers == Drained(old(m.freeLists[t])) && |accepted| == |numbers|
    ensures forall k :: 0 <= k < |numbers| ==>
      (accepted[k] <==> numbers[k] !in LeftAfter(old(m.freeLists[t]), k + 1))
    ensures NoDup(numbers) <==> NoDup(old(m.freeLists[t]))
    ensures (forall k :: 0 <= k < |numbers| ==> accepted[k]) <==> NoDup(old(m.freeLists[t]))
  {
    hide TypeOf, NoOf, Drained, NoDup, SlotsOk, FilesFit, Holds, SamePages, Surviving, Cuts, Reserve, Required, PageIn;
    ghost var list := m.freeLists[t];
    numbers, accepted := [], [];
    DrainedDistinctIff(list);
    FreeNoLongerIff(list);
    while |m.freeLists[t]| > 0
      invariant m.Shape() && |numbers| <= |list| && m.freeLists[t] == LeftAfter(list, |numbers|)
      invariant m.counts == old(m.counts) && |accepted| == |numbers|
      invariant forall k :: 0 <= k < |numbers| ==> numbers[k] == list[|list| - 1 - k]
      invariant forall k :: 0 <= k < |numbers| ==> (accepted[k] <==> numbers[k] !in LeftAfter(list, k + 1))
      decreases |list| - |numbers|
    {
      ghost var no := m.freeLists[t][|m.freeLists[t]| - 1];
      assert no == list[|list| - 1 - |numbers|];
      assert LeftAfter(list, |numbers|)[..|list| - |numbers| - 1] == LeftAfter(list, |numbers| + 1);
      var r := m.Allocate(t, space);
      IdsRoundTrip(t, no, r.value);
      var e := m.Validate(r.value);
      numbers, accepted := numbers + [NoOf(r.value)], accepted + [e.None?];
    }
  }

  /** A manager that loads such a file hands out chunk 0 twice. */
  method DuplicateHandsOutTwice(space: Space)
    returns (loaded: Option<Error>, first: Result<nat, Error>, verdict: Option<Error>, second: Result<nat, Error>)
    ensures loaded == None && first == Ok(0) && verdict == Some(Deleted) && second == Ok(0)
  {
    hide Accepted;
    var m := new Manager();
    m.meta := MetaFile(true, [1, 0, 0, 0], [2, 0, 0, 0], [0, 0]);
    ghost var lists: seq<seq<nat>> := [[0, 0], [], [], []];
    ExampleAccepted(m.meta, lists);
    loaded := m.LoadMeta(false);
    AcceptedUnique(m.meta, m.freeLists, lists);
    first := m.Allocate(0, space);
    verdict := m.Validate(0);
    second := m.Allocate(0, space);
  }

  /** Loading checks the range of free numbers but not that they differ. */
  lemma DuplicateIsAccepted()
    ensures exists meta, lists :: Accepted(meta, lists) && !SlotsOk(meta.counts, lists)
  {
    hide Accepted;
    var lists: seq<seq<nat>> := [[0, 0], [], [], []];
    var meta := MetaFile(true, [1, 0, 0, 0], [2, 0, 0, 0], [0, 0]);
    ExampleAccepted(meta, lists);
    assert !NoDup(lists[0]) by {
      assert lists[0][0] == lists[0][1];
    }
  }

  lemma ExampleAccepted(meta: MetaFile, lists: seq<seq<nat>>)
    requires meta == MetaFile(true, [1, 0, 0, 0], [2, 0, 0, 0], [0, 0]) && lists == [[0, 0], [], [], []]
    ensures Accepted(meta, lists)
  {
    hide Flatten;
    ExampleWords(lists);
    assert Lengths(lists) == meta.freeCounts;
  }

  lemma ExampleWords(lists: seq<seq<nat>>)
    requires lists == [[0, 0], [], [], []]
    ensures Flatten(lists) == [0, 0]
  {
    hide Flatten;
    FlattenStep(lists, 0);
    FlattenStep(lists, 1);
    FlattenStep(lists, 2);
    FlattenStep(lists, 3);
    NoLists();
    assert lists[..0] == [] && lists[..4] == lists;
  }

  lemma AcceptedInBounds(meta: MetaFile, lists: seq<seq<nat>>)
    requires Accepted(meta, lists)
    ensures |lists| == LEVELS && forall t :: 0 <= t < LEVELS ==> InBounds(lists[t], meta.counts[t])
  {
  }

  /** What is loaded is in order exactly when no free number is listed twice and no file is too long. */
  lemma LoadedValid(counts: seq<nat>, freeLists: seq<seq<nat>>, files: seq<seq<Byte>>)
    requires |counts| == |freeLists| == |files| == LEVELS
    requires forall t :: 0 <= t < LEVELS ==> InBounds(freeLists[t], counts[t])
    ensures Holds(counts, freeLists, files, map[])
    ensures SlotsOk(counts, freeLists) <==> forall t :: 0 <= t < LEVELS ==> NoDup(freeLists[t])
  {
    hide InBounds, NoDup;
  }

  lemma NothingHeld(counts: seq<nat>, freeLists: seq<seq<nat>>, files: seq<seq<Byte>>)
    requires |counts| == |freeLists| == |files| == LEVELS
    ensures Holds(counts, freeLists, files, map[])
  {
  }
}
