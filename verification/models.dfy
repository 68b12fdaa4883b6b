/** The data model of src/models.rs: character locations, half-open ranges,
    the MIR summary of a function, and the crate/workspace maps that the
    analysis merges. */
module Models {
  import opened Wrappers
  import opened OrderedMaps

  const U32_MAX: int := 0xFFFF_FFFF
  const I32_MIN: int := -0x8000_0000
  const I32_MAX: int := 0x7FFF_FFFF

  type u32 = x: int | 0 <= x <= U32_MAX
  type i32 = x: int | I32_MIN <= x <= I32_MAX

  /** A character index into a source file, with carriage returns not counted. */
  type Loc = u32

  /** `u32::saturating_add` and `u32::saturating_sub`. */
  function SaturatingAdd(a: u32, b: u32): u32 {
    if a + b > U32_MAX then U32_MAX else a + b
  }

  function SaturatingSub(a: u32, b: u32): u32 {
    if b > a then 0 else a - b
  }

  /** The exact integer pulled back into the `u32` range. */
  function Clamp(x: int): u32 {
    if x < 0 then 0 else if x > U32_MAX then U32_MAX else x
  }

  /** `Loc + i32`. The source negates a negative offset in `i32`, which has no
      value for `i32::MIN`, so that one offset is excluded. */
  function LocAdd(l: Loc, k: i32): (r: Loc)
    requires k != I32_MIN
    ensures r == Clamp(l + k)
    ensures k >= 0 ==> r >= l
    ensures k <= 0 ==> r <= l
  {
    if k >= 0 then SaturatingAdd(l, k) else SaturatingSub(l, -k)
  }

  /** `Loc - i32`, with the same excluded offset as `LocAdd`. */
  function LocSub(l: Loc, k: i32): (r: Loc)
    requires k != I32_MIN
    ensures r == Clamp(l - k)
    ensures k >= 0 ==> r <= l
    ensures k <= 0 ==> r >= l
  {
    if k >= 0 then SaturatingSub(l, k) else SaturatingAdd(l, -k)
  }

  /** Subtracting an offset is adding its negation. */
  lemma LocSubIsAddNegated(l: Loc, k: i32)
    requires k != I32_MIN
    ensures LocSub(l, k) == LocAdd(l, -k)
  {
  }

  // ---------------------------------------------------------------------------
  // Loc::new: from a byte offset to a character index.

  /** `char::len_utf8`. */
  function Utf8Width(c: char): nat {
    if c as int < 0x80 then 1
    else if c as int < 0x800 then 2
    else if c as int < 0x10000 then 3
    else 4
  }

  /** The UTF-8 length of a string in bytes. */
  function ByteLen(s: string): nat {
    if |s| == 0 then 0 else Utf8Width(s[0]) + ByteLen(s[1..])
  }

  /** The number of characters that are not carriage returns. */
  function NonCrCount(s: string): nat {
    if |s| == 0 then 0 else (if s[0] == '\r' then 0 else 1) + NonCrCount(s[1..])
  }

  /** The loop of `Loc::new` over the remaining characters `s`, having consumed
      `consumed` bytes so far: it stops once `target` bytes are consumed and
      counts each non-CR character that ends at or before `target`. */
  function CountChars(s: string, target: nat, consumed: nat): (n: nat)
    ensures n <= NonCrCount(s)
    ensures consumed + n <= target || n == 0
  {
    if |s| == 0 || consumed >= target then 0
    else
      var after := consumed + Utf8Width(s[0]);
      var counted := if s[0] != '\r' && after <= target then 1 else 0;
      counted + CountChars(s[1..], target, after)
  }

  /** `Loc::new(source, byte_pos, offset)`: the character index of byte
      `byte_pos - offset` (saturating), with CR characters not counted and a
      character that straddles the target byte not counted either. */
  function LocNew(source: string, bytePos: u32, offset: u32): (l: Loc)
    ensures l <= NonCrCount(source)
    ensures l <= SaturatingSub(bytePos, offset)
    ensures offset >= bytePos ==> l == 0
  {
    CountChars(source, SaturatingSub(bytePos, offset), 0)
  }

  /** `n` is the longest prefix of `s` whose UTF-8 encoding fits in `budget` bytes. */
  ghost predicate LongestFittingPrefix(s: string, budget: nat, n: nat) {
    n <= |s| && ByteLen(s[..n]) <= budget && (n == |s| || ByteLen(s[..n + 1]) > budget)
  }

  lemma PrefixUnfold(s: string, n: nat)
    requires 0 < n <= |s|
    ensures ByteLen(s[..n]) == Utf8Width(s[0]) + ByteLen(s[1..][..n - 1])
    ensures NonCrCount(s[..n]) == (if s[0] == '\r' then 0 else 1) + NonCrCount(s[1..][..n - 1])
  {
    assert s[..n][1..] == s[1..][..n - 1];
  }

  lemma {:induction false} CountCharsIsPrefixCount(s: string, target: nat, consumed: nat, n: nat)
    requires consumed <= target ==> LongestFittingPrefix(s, target - consumed, n)
    requires consumed > target ==> n == 0
    ensures CountChars(s, target, consumed) == NonCrCount(s[..n])
    decreases |s|
  {
    if |s| == 0 {
    } else if consumed >= target {
      if n > 0 {
        PrefixUnfold(s, n);
      }
    } else {
      var after := consumed + Utf8Width(s[0]);
      if n == 0 {
        PrefixUnfold(s, 1);
        assert s[1..][..0] == [];
        assert after > target;
        CountCharsIsPrefixCount(s[1..], target, after, 0);
      } else {
        PrefixUnfold(s, n);
        assert after <= target;
        if n < |s| {
          PrefixUnfold(s, n + 1);
          assert s[1..][..n] == s[1..][..n - 1 + 1];
        }
        CountCharsIsPrefixCount(s[1..], target, after, n - 1);
      }
    }
  }

  /** `Loc::new` counts exactly the non-CR characters of the longest prefix of
      the source whose bytes end at or before the (saturated) target byte. */
  lemma LocNewCountsFittingPrefix(source: string, bytePos: u32, offset: u32, n: nat)
    requires LongestFittingPrefix(source, SaturatingSub(bytePos, offset), n)
    ensures LocNew(source, bytePos, offset) == NonCrCount(source[..n])
  {
    CountCharsIsPrefixCount(source, SaturatingSub(bytePos, offset), 0, n);
  }

  /** An ASCII string takes one byte per character. */
  lemma {:induction false} AsciiByteLen(s: string)
    requires forall i :: 0 <= i < |s| ==> s[i] as int < 0x80
    ensures ByteLen(s) == |s|
  {
    if |s| > 0 {
      AsciiByteLen(s[1..]);
    }
  }

  /** The number of non-CR characters is additive over concatenation. */
  lemma {:induction false} NonCrCountAppend(a: string, b: string)
    ensures NonCrCount(a + b) == NonCrCount(a) + NonCrCount(b)
  {
    if |a| > 0 {
      assert (a + b)[1..] == a[1..] + b;
      NonCrCountAppend(a[1..], b);
    } else {
      assert a + b == b;
    }
  }

  /** On an ASCII source every byte is one character, so `Loc::new` counts the
      non-CR characters among the first `k`. */
  lemma LocNewAscii(source: string, k: u32, prefix: string)
    requires forall i :: 0 <= i < |source| ==> source[i] as int < 0x80
    requires k as int <= |source| && prefix == source[..k]
    ensures LocNew(source, k, 0) == NonCrCount(prefix)
  {
    AsciiByteLen(source[..k]);
    if k as int < |source| {
      AsciiByteLen(source[..k + 1]);
    }
    LocNewCountsFittingPrefix(source, k, 0, k as nat);
  }

  lemma NonCrCountCrExample()
    ensures NonCrCount("hello\r\n ") == 7
  {
    NonCrCountAppend("hello", "\r\n ");
    assert "hello" + "\r\n " == "hello\r\n ";
  }

  /** A CR before the target byte shifts the byte offset but not the
      character index: byte 8 of "hello\r\n world" is character 7. */
  lemma LocNewCrExample()
    ensures LocNew("hello\r\n world", 8, 0) == 7
  {
    LocNewAscii("hello\r\n world", 8, "hello\r\n ");
    NonCrCountCrExample();
  }

  /** A four-byte character counts once, and only when the target byte lies
      at or after its end. */
  lemma LocNewWideCharExample()
    ensures LocNew("a\U{1F980}b", 3, 0) == 1
    ensures LocNew("a\U{1F980}b", 5, 0) == 2
    ensures LocNew("a\U{1F980}b", 9, 4) == 2
  {
    LocNewCountsFittingPrefix("a\U{1F980}b", 3, 0, 1);
    LocNewCountsFittingPrefix("a\U{1F980}b", 5, 0, 2);
    LocNewCountsFittingPrefix("a\U{1F980}b", 9, 4, 2);
  }

  // ---------------------------------------------------------------------------
  // Ranges.

  datatype Interval = Interval(from: Loc, until: Loc)

  /** A non-empty half-open range `[from, until)`; `Range::new` is its only
      constructor, so every range in the program has `from < until`. */
  type Range = r: Interval | r.from < r.until witness Interval(0, 1)

  /** `Range::new`: a range exactly when `until` lies after `from`. */
  function RangeNew(from: Loc, until: Loc): (r: Option<Range>)
    ensures r.Some? <==> from < until
    ensures r.Some? ==> r.value.from == from && r.value.until == until
  {
    if until <= from then None else Some(Interval(from, until))
  }

  /** `Range::size`: never zero and never more than the width of `u32`. */
  function Size(r: Range): (n: u32)
    ensures 0 < n && r.from + n == r.until
  {
    r.until - r.from
  }

  /** Position `p` lies inside `r`. */
  ghost predicate Covers(r: Range, p: int) {
    r.from <= p < r.until
  }

  /** `Range::size` is the number of positions the range covers. */
  lemma SizeCountsPoints(r: Range)
    ensures forall p :: p in SetOfRange(r.from, r.until) <==> Covers(r, p)
    ensures Size(r) == |SetOfRange(r.from, r.until)|
  {
    SetOfRangeSize(r.from, r.until);
  }

  /** The integers in `[lo, hi)`. */
  ghost function SetOfRange(lo: int, hi: int): set<int>
    decreases hi - lo
  {
    if hi <= lo then {} else {lo} + SetOfRange(lo + 1, hi)
  }

  lemma {:induction false} SetOfRangeSize(lo: int, hi: int)
    ensures forall p :: p in SetOfRange(lo, hi) <==> lo <= p < hi
    ensures |SetOfRange(lo, hi)| == if hi <= lo then 0 else hi - lo
    decreases hi - lo
  {
    if lo < hi {
      SetOfRangeSize(lo + 1, hi);
    }
  }

  // ---------------------------------------------------------------------------
  // The MIR summary of a function.

  datatype FnLocal = FnLocal(id: u32, fnId: u32)

  datatype MirVariable =
    | UserVariable(index: u32, live: Range, dead: Range)
    | OtherVariable(index: u32, live: Range, dead: Range)

  datatype MirRval =
    | Move(targetLocal: FnLocal, range: Range)
    | Borrow(targetLocal: FnLocal, range: Range, mutable: bool, outlive: Option<Range>)

  /** Every statement carries a range, so `MirStatement::range` is the shared
      `range` field. */
  datatype MirStatement =
    | StorageLive(targetLocal: FnLocal, range: Range)
    | StorageDead(targetLocal: FnLocal, range: Range)
    | Assign(targetLocal: FnLocal, range: Range, rval: Option<MirRval>)
    | OtherStatement(range: Range)

  datatype MirTerminator =
    | Drop(local: FnLocal, range: Range)
    | Call(destinationLocal: FnLocal, fnSpan: Range)
    | OtherTerminator(range: Range)
  {
    /** `MirTerminator::range`: a call is located by the span of its callee. */
    function CodeRange(): (r: Range)
      ensures Call? ==> r == fnSpan
      ensures !Call? ==> r == range
    {
      match this
      case Drop(_, range) => range
      case Call(_, fnSpan) => fnSpan
      case OtherTerminator(range) => range
    }
  }

  datatype MirBasicBlock = MirBasicBlock(statements: seq<MirStatement>, terminator: Option<MirTerminator>)

  datatype MirDecl =
    | UserDecl(local: FnLocal, name: string, span: Range, ty: string, lives: seq<Range>,
               sharedBorrow: seq<Range>, mutableBorrow: seq<Range>, drop: bool,
               dropRange: seq<Range>, mustLiveAt: seq<Range>)
    | OtherDecl(local: FnLocal, ty: string, lives: seq<Range>,
                sharedBorrow: seq<Range>, mutableBorrow: seq<Range>, drop: bool,
                dropRange: seq<Range>, mustLiveAt: seq<Range>)

  datatype Function = Function(fnId: u32, basicBlocks: seq<MirBasicBlock>, decls: seq<MirDecl>)

  datatype File = File(items: seq<Function>)

  datatype Crate = Crate(files: OrdMap<string, File>)

  datatype Workspace = Workspace(crates: OrdMap<string, Crate>)

  // ---------------------------------------------------------------------------
  // MirVariables: an insertion-ordered map from variable index to variable in
  // which the first variable pushed for an index wins.

  datatype MirVariables = MirVariables(byIndex: OrdMap<u32, MirVariable>)

  ghost predicate WellKeyed(vs: MirVariables) {
    forall k :: k in vs.byIndex.values ==> vs.byIndex.values[k].index == k
  }

  /** `MirVariables::push`: `entry(index).or_insert(var)`. */
  function Push(vs: MirVariables, v: MirVariable): (r: MirVariables)
    ensures v.index in vs.byIndex.values ==> r == vs
    ensures v.index !in vs.byIndex.values ==>
      r.byIndex.keys == vs.byIndex.keys + [v.index] && r.byIndex.values == vs.byIndex.values[v.index := v]
    ensures WellKeyed(vs) ==> WellKeyed(r)
  {
    if v.index in vs.byIndex.values then vs
    else MirVariables(Insert(vs.byIndex, v.index, v))
  }

  /** `MirVariables::to_vec`: the stored variables in insertion order. */
  function ToVec(vs: MirVariables): (r: seq<MirVariable>)
    ensures |r| == |vs.byIndex.keys|
    ensures forall i :: 0 <= i < |r| ==> r[i] == vs.byIndex.values[vs.byIndex.keys[i]]
  {
    assert forall i :: 0 <= i < |vs.byIndex.keys| ==> vs.byIndex.keys[i] in vs.byIndex.values;
    seq(|vs.byIndex.keys|, i requires 0 <= i < |vs.byIndex.keys| => vs.byIndex.values[vs.byIndex.keys[i]])
  }

  /** The variables after pushing each of `xs` in turn into an empty collection. */
  function PushAll(xs: seq<MirVariable>): MirVariables {
    if |xs| == 0 then MirVariables(Empty())
    else Push(PushAll(xs[..|xs| - 1]), xs[|xs| - 1])
  }

  ghost function Indices(xs: seq<MirVariable>): set<u32> {
    set v | v in xs :: v.index
  }

  /** Reference: keep a variable exactly when no earlier one has its index. */
  ghost function FirstSeen(xs: seq<MirVariable>): seq<MirVariable> {
    if |xs| == 0 then []
    else
      var front := xs[..|xs| - 1];
      FirstSeen(front) + (if xs[|xs| - 1].index in Indices(front) then [] else [xs[|xs| - 1]])
  }

  lemma {:induction false} PushAllKeys(xs: seq<MirVariable>)
    ensures PushAll(xs).byIndex.values.Keys == Indices(xs)
    ensures WellKeyed(PushAll(xs))
  {
    if |xs| > 0 {
      var front := xs[..|xs| - 1];
      PushAllKeys(front);
      assert xs == front + [xs[|xs| - 1]];
      assert Indices(xs) == Indices(front) + {xs[|xs| - 1].index};
    }
  }

  /** Pushing a sequence and reading it back yields each index's first
      variable, in the order the indices first appeared. */
  lemma {:induction false} PushAllToVec(xs: seq<MirVariable>)
    ensures ToVec(PushAll(xs)) == FirstSeen(xs)
  {
    if |xs| > 0 {
      var front := xs[..|xs| - 1];
      var x := xs[|xs| - 1];
      PushAllToVec(front);
      PushAllKeys(front);
      var before := PushAll(front);
      if x.index !in Indices(front) {
        assert x.index !in before.byIndex.values;
        var after := Push(before, x);
        assert ToVec(after) == ToVec(before) + [x] by {
          assert forall i :: 0 <= i < |before.byIndex.keys| ==>
            before.byIndex.keys[i] != x.index by {
            assert forall i :: 0 <= i < |before.byIndex.keys| ==> before.byIndex.keys[i] in before.byIndex.values;
          }
        }
      }
    }
  }

  // ---------------------------------------------------------------------------
  // Crate::merge and Workspace::merge.

  function FnIds(items: seq<Function>): set<u32> {
    set f | f in items :: f.fnId
  }

  /** `mir.items.retain(|item| seen_ids.insert(item.fn_id))`: keep an item when
      its id was not seen yet, and mark it seen. */
  function RetainUnseen(seen: set<u32>, items: seq<Function>): (r: seq<Function>)
    ensures forall f :: f in r ==> f in items && f.fnId !in seen
    ensures forall i, j :: 0 <= i < j < |r| ==> r[i].fnId != r[j].fnId
    ensures FnIds(r) == FnIds(items) - seen
    decreases |items|
  {
    if |items| == 0 then []
    else if items[0].fnId in seen then
      var rest := RetainUnseen(seen, items[1..]);
      assert FnIds(items) == {items[0].fnId} + FnIds(items[1..]) by {
        assert items == [items[0]] + items[1..];
      }
      rest
    else
      var rest := RetainUnseen(seen + {items[0].fnId}, items[1..]);
      assert FnIds(items) == {items[0].fnId} + FnIds(items[1..]) by {
        assert items == [items[0]] + items[1..];
      }
      assert FnIds([items[0]] + rest) == {items[0].fnId} + FnIds(rest);
      [items[0]] + rest
  }

  /** Reference: an item survives exactly when its id is neither seen nor held
      by an earlier item. */
  ghost function FirstFresh(seen: set<u32>, items: seq<Function>): seq<Function> {
    if |items| == 0 then []
    else
      var front := items[..|items| - 1];
      var x := items[|items| - 1];
      FirstFresh(seen, front) + (if x.fnId in seen + FnIds(front) then [] else [x])
  }

  /** Appending one item to the retain loop's input appends it to the output
      exactly when its id is new. */
  ghost predicate RetainsSnoc(seen: set<u32>, front: seq<Function>, x: Function) {
    RetainUnseen(seen, front + [x]) ==
      RetainUnseen(seen, front) + (if x.fnId in seen + FnIds(front) then [] else [x])
  }

  lemma {:induction false} RetainUnseenSnoc(seen: set<u32>, front: seq<Function>, x: Function)
    ensures RetainsSnoc(seen, front, x)
    decreases |front|
  {
    if |front| == 0 {
      assert front + [x] == [x];
    } else if front[0].fnId in seen {
      RetainUnseenSnoc(seen, front[1..], x);
      RetainsSnocSeen(seen, front, x);
    } else {
      RetainUnseenSnoc(seen + {front[0].fnId}, front[1..], x);
      RetainsSnocFresh(seen, front, x);
    }
  }

  lemma FnIdsCons(items: seq<Function>)
    requires |items| > 0
    ensures FnIds(items) == {items[0].fnId} + FnIds(items[1..])
  {
    assert items == [items[0]] + items[1..];
  }

  /** The step of `RetainUnseenSnoc` over a first item whose id was seen. */
  lemma RetainsSnocSeen(seen: set<u32>, front: seq<Function>, x: Function)
    requires |front| > 0 && front[0].fnId in seen
    requires RetainsSnoc(seen, front[1..], x)
    ensures RetainsSnoc(seen, front, x)
  {
    var items, rest := front + [x], front[1..];
    TailOfSnoc(front, x);
    FnIdsCons(front);
    assert RetainUnseen(seen, items) == RetainUnseen(seen, rest + [x]);
    assert RetainUnseen(seen, front) == RetainUnseen(seen, rest);
    assert (x.fnId in seen + FnIds(rest)) == (x.fnId in seen + FnIds(front));
  }

  /** The step of `RetainUnseenSnoc` over a first item with a new id. */
  lemma RetainsSnocFresh(seen: set<u32>, front: seq<Function>, x: Function)
    requires |front| > 0 && front[0].fnId !in seen
    requires RetainsSnoc(seen + {front[0].fnId}, front[1..], x)
    ensures RetainsSnoc(seen, front, x)
  {
    var y, rest := front[0], front[1..];
    var seen' := seen + {y.fnId};
    var tail := if x.fnId in seen + FnIds(front) then [] else [x];
    TailOfSnoc(front, x);
    RetainUnseenFresh(seen, front + [x]);
    RetainUnseenFresh(seen, front);
    FnIdsCons(front);
    assert (x.fnId in seen' + FnIds(rest)) == (x.fnId in seen + FnIds(front));
    calc {
      RetainUnseen(seen, front + [x]);
      [y] + RetainUnseen(seen', rest + [x]);
      [y] + (RetainUnseen(seen', rest) + tail);
      { ConsAssoc(y, RetainUnseen(seen', rest), tail); }
      [y] + RetainUnseen(seen', rest) + tail;
      RetainUnseen(seen, front) + tail;
    }
  }

  lemma TailOfSnoc<T>(s: seq<T>, x: T)
    requires |s| > 0
    ensures (s + [x])[0] == s[0] && (s + [x])[1..] == s[1..] + [x]
  {
  }

  lemma ConsAssoc<T>(y: T, a: seq<T>, b: seq<T>)
    ensures [y] + (a + b) == [y] + a + b
  {
  }

  /** `RetainUnseen` keeps a first item whose id is new and marks it seen. */
  lemma RetainUnseenFresh(seen: set<u32>, items: seq<Function>)
    requires |items| > 0 && items[0].fnId !in seen
    ensures RetainUnseen(seen, items) == [items[0]] + RetainUnseen(seen + {items[0].fnId}, items[1..])
  {
  }

  /** The retain loop keeps exactly the first item of each id not already seen. */
  lemma {:induction false} RetainUnseenKeepsFirstFresh(seen: set<u32>, items: seq<Function>)
    ensures RetainUnseen(seen, items) == FirstFresh(seen, items)
  {
    if |items| > 0 {
      var front := items[..|items| - 1];
      RetainUnseenKeepsFirstFresh(seen, front);
      assert items == front + [items[|items| - 1]];
      RetainUnseenSnoc(seen, front, items[|items| - 1]);
    }
  }

  /** The `Some(existing)` arm of `Crate::merge`: append the incoming items whose
      function ids are new to the file. */
  function MergeFile(existing: File, incoming: File): (r: File)
    ensures |existing.items| <= |r.items| && r.items[..|existing.items|] == existing.items
    ensures FnIds(r.items) == FnIds(existing.items) + FnIds(incoming.items)
    ensures forall i :: |existing.items| <= i < |r.items| ==>
      r.items[i] in incoming.items && r.items[i].fnId !in FnIds(existing.items)
  {
    var added := RetainUnseen(FnIds(existing.items), incoming.items);
    assert (existing.items + added)[..|existing.items|] == existing.items;
    assert forall i :: |existing.items| <= i < |existing.items + added| ==>
      (existing.items + added)[i] == added[i - |existing.items|];
    assert FnIds(existing.items + added) == FnIds(existing.items) + FnIds(added);
    File(existing.items + added)
  }

  /** A file whose function ids are distinct keeps them distinct when merged. */
  lemma MergeFileKeepsIdsDistinct(existing: File, incoming: File)
    requires forall i, j :: 0 <= i < j < |existing.items| ==> existing.items[i].fnId != existing.items[j].fnId
    ensures var r := MergeFile(existing, incoming);
      forall i, j :: 0 <= i < j < |r.items| ==> r.items[i].fnId != r.items[j].fnId
  {
    var added := RetainUnseen(FnIds(existing.items), incoming.items);
    var r := MergeFile(existing, incoming);
    assert r.items == existing.items + added;
    forall i, j | 0 <= i < j < |r.items| ensures r.items[i].fnId != r.items[j].fnId {
      if j >= |existing.items| && i < |existing.items| {
        assert r.items[i] in existing.items;
      }
    }
  }

  /** Merging a file into itself changes nothing. */
  lemma MergeFileSelf(f: File)
    ensures MergeFile(f, f) == f
  {
    var added := RetainUnseen(FnIds(f.items), f.items);
    assert |added| > 0 ==> added[0].fnId in FnIds(added);
    assert f.items + [] == f.items;
  }

  /** `Crate::merge`. */
  function CrateMerge(c: Crate, other: Crate): (r: Crate)
    ensures forall f :: f in r.files.values <==> f in c.files.values || f in other.files.values
    ensures forall f :: f in c.files.values && f in other.files.values ==>
      r.files.values[f] == MergeFile(c.files.values[f], other.files.values[f])
    ensures forall f :: f in c.files.values && f !in other.files.values ==>
      r.files.values[f] == c.files.values[f]
    ensures forall f :: f !in c.files.values && f in other.files.values ==>
      r.files.values[f] == other.files.values[f]
    ensures r.files.keys == c.files.keys + NewKeys(other.files.keys, c.files.values.Keys)
  {
    MergeWithSpec(c.files, other.files, MergeFile);
    Crate(MergeWith(c.files, other.files, MergeFile))
  }

  /** `Workspace::merge`: colliding crate names are merged with `Crate::merge`. */
  function WorkspaceMerge(w: Workspace, other: Workspace): (r: Workspace)
    ensures forall n :: n in r.crates.values <==> n in w.crates.values || n in other.crates.values
    ensures forall n :: n in w.crates.values && n in other.crates.values ==>
      r.crates.values[n] == CrateMerge(w.crates.values[n], other.crates.values[n])
    ensures forall n :: n in w.crates.values && n !in other.crates.values ==>
      r.crates.values[n] == w.crates.values[n]
    ensures forall n :: n !in w.crates.values && n in other.crates.values ==>
      r.crates.values[n] == other.crates.values[n]
    ensures r.crates.keys == w.crates.keys + NewKeys(other.crates.keys, w.crates.values.Keys)
  {
    MergeWithSpec(w.crates, other.crates, CrateMerge);
    Workspace(MergeWith(w.crates, other.crates, CrateMerge))
  }

  /** Merging a crate into itself changes nothing. */
  lemma CrateMergeSelf(c: Crate)
    ensures CrateMerge(c, c) == c
  {
    forall f | f in c.files.values
      ensures MergeFile(c.files.values[f], c.files.values[f]) == c.files.values[f]
    {
      MergeFileSelf(c.files.values[f]);
    }
    MergeWithSelf(c.files, MergeFile);
  }
}
