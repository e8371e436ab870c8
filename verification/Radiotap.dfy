/** The walk over a radiotap header, without vendor namespace definitions. */
module Radiotap {
  import opened Bytes
  import opened Sequences

  const EXT := 31
  const VENDOR := 30
  const DEFAULT := 29
  const KNOWN_FIELDS := 23
  const FIXED := 8

  /** Alignment and size of the fields of the default namespace; field 18 is not defined. */
  function AlignOf(i: nat): (a: nat)
    ensures i < KNOWN_FIELDS && i != 18 ==> Alignment(a)
  {
    if i == 0 || i == 22 then 8
    else if i in {3, 4, 7, 8, 9, 14, 15, 21} then 2
    else if i == 20 then 4
    else if i == 18 || i >= KNOWN_FIELDS then 0
    else 1
  }

  function SizeOf(i: nat): nat {
    if i == 0 || i == 20 then 8
    else if i == 3 then 4
    else if i in {4, 7, 8, 9, 14, 15} then 2
    else if i == 19 then 3
    else if i == 21 || i == 22 then 12
    else if i == 18 || i >= KNOWN_FIELDS then 0
    else 1
  }

  function Le16(h: seq<byte>, i: nat): (r: nat)
    requires i + 2 <= |h|
    ensures r < 0x1_0000
  {
    var hi: int := h[i + 1];
    256 * hi + h[i]
  }

  function Le32(h: seq<byte>, i: nat): (r: nat)
    requires i + 4 <= |h|
    ensures r < 0x1_0000_0000
  {
    0x1_0000 * Le16(h, i + 2) + Le16(h, i)
  }

  /** Numbers come with the low byte first. */
  lemma NumberFormat(h: seq<byte>, i: nat)
    requires i + 4 <= |h|
    ensures Le16(h, i) == LittleEndian(h[i..i + 2]) && Le32(h, i) == LittleEndian(h[i..i + 4])
  {
    LittleEndianTwo(h[i..i + 2]);
    LittleEndianTwo(h[i + 2..i + 4]);
    LittleEndianConcat(h[i..i + 2], h[i + 2..i + 4]);
    assert h[i..i + 2] + h[i + 2..i + 4] == h[i..i + 4];
  }

  /** A word shifted right by p. */
  function Shifted(w: nat, p: nat): nat {
    if p == 0 then w else Shifted(w, p - 1) / 2
  }

  predicate Bit(w: nat, i: nat) {
    Shifted(w, i) % 2 == 1
  }

  predicate Alignment(a: nat) {
    a == 1 || a == 2 || a == 4 || a == 8
  }

  predicate Aligned(x: nat, a: nat) {
    if a == 2 then x % 2 == 0 else if a == 4 then x % 4 == 0 else if a == 8 then x % 8 == 0 else a == 1
  }

  function Even(x: nat): (r: nat)
    ensures x <= r < x + 2 && r % 2 == 0
  {
    if x % 2 == 0 then x else x + 2 - x % 2
  }

  function MultipleOfFour(x: nat): (r: nat)
    ensures x <= r < x + 4 && r % 4 == 0
  {
    if x % 4 == 0 then x else x + 4 - x % 4
  }

  function MultipleOfEight(x: nat): (r: nat)
    ensures x <= r < x + 8 && r % 8 == 0
  {
    if x % 8 == 0 then x else x + 8 - x % 8
  }

  /** The least multiple of a not below x. */
  function AlignUp(x: nat, a: nat): (r: nat)
    requires Alignment(a)
    ensures x <= r < x + a && Aligned(r, a)
  {
    if a == 1 then x else if a == 2 then Even(x) else if a == 4 then MultipleOfFour(x) else MultipleOfEight(x)
  }

  /** The code's form: add what the padding lacks. */
  lemma PaddingAligns(x: nat, a: nat)
    requires Alignment(a)
    ensures AlignUp(x, a) == if x % a == 0 then x else x + a - x % a
  {
    if a == 1 {
      assert x % 1 == 0;
    } else if a == 2 {
      assert AlignUp(x, 2) == Even(x);
    } else if a == 4 {
      assert AlignUp(x, 4) == MultipleOfFour(x);
    } else {
      assert AlignUp(x, 8) == MultipleOfEight(x);
    }
  }

  // ----- the bitmap words

  /** The word at w and the words it announces lie within the header. */
  predicate Chain(h: seq<byte>, w: nat, max: nat)
    requires max <= |h|
    decreases |h| - w
  {
    w + 4 <= |h| && (Bit(Le32(h, w), EXT) ==> w + 8 <= max && Chain(h, w + 4, max))
  }

  /** The first byte after the words. */
  function ChainEnd(h: seq<byte>, w: nat, max: nat): (e: nat)
    requires max <= |h| && Chain(h, w, max)
    ensures w + 4 <= e <= |h| && (e > w + 4 ==> e <= max)
    decreases |h| - w
  {
    if Bit(Le32(h, w), EXT) then ChainEnd(h, w + 4, max) else w + 4
  }

  // ----- the iterator as a value

  /** `nsData` is the end of the last vendor data, negative before there was any; `known` tells the
      default namespace from one without definitions. */
  datatype State = State(arg: nat, index: nat, shifter: nat, next: nat, nsData: int, known: bool, reset: bool)

  datatype Field = Field(index: nat, at: nat, size: nat)

  /** A call finds a field, finds no more, finds the header broken, or follows a pointer nobody has set. */
  datatype Outcome = Found(field: Field) | NoMore | Broken | Wild

  datatype Result = Result(state: State, outcome: Outcome)

  ghost predicate Ok(h: seq<byte>, max: nat, s: State) {
    && |h| == (if max < FIXED then FIXED else max) && s.arg <= |h|
    && FIXED <= s.next && Chain(h, s.next - 4, max)
    && s.shifter == Shifted(Le32(h, s.next - 4), s.index % 32)
    && s.nsData <= max && (!s.known ==> s.nsData >= 0)
  }

  function Start(h: seq<byte>, max: nat): State
    requires |h| >= FIXED && max <= |h| && Chain(h, 4, max)
  {
    State(ChainEnd(h, 4, max), 0, Le32(h, 4), 8, -1, true, false)
  }

  function NextBit(s: State): State {
    s.(shifter := s.shifter / 2, index := s.index + 1)
  }

  /** Take a field of this alignment and size, if it lies within the header. */
  function Take(s: State, max: nat, align: nat, size: nat): Result
    requires Alignment(align)
  {
    var a := AlignUp(s.arg, align);
    if a + size > max then Result(s, Broken)
    else Result(NextBit(s.(arg := a + size)), Found(Field(s.index, a, size)))
  }

  /** Unknown data of unknown layout: skip to the end of the vendor data. */
  function Skip(s: State): State
    requires s.nsData >= 0
  {
    NextBit(s.(arg := s.nsData, known := false))
  }

  function NextWord(h: seq<byte>, s: State): State
    requires s.next + 4 <= |h|
  {
    s.(shifter := Le32(h, s.next), next := s.next + 4, index := if s.reset then 0 else s.index + 1, reset := false)
  }

  /** A vendor namespace: six bytes of description, then its data as one field. */
  function Vendor(h: seq<byte>, max: nat, s: State): Result
    requires max <= |h|
  {
    var a := AlignUp(s.arg, 2);
    if a + 6 > max then Result(s, Broken)
    else
      var size := 6 + Le16(h, a + 4);
      if a + size > max then Result(s, Broken)
      else Result(NextBit(s.(arg := a + size, nsData := a + size, known := false, reset := true)), Found(Field(VENDOR, a, size)))
  }

  /** A vendor namespace laid out as the format says, with three bytes of owner, one of kind, two of length and the data,
      is found as one field that covers exactly these bytes, and the walk goes on behind it. */
  lemma VendorCovers(h: seq<byte>, max: nat, s: State, owner: seq<byte>, kind: byte, length: seq<byte>, data: seq<byte>)
    requires max <= |h| && |owner| == 3 && |length| == 2 && LittleEndian(length) == |data|
    requires var a, ns := AlignUp(s.arg, 2), owner + [kind] + length + data; a + |ns| <= max && h[a..a + |ns|] == ns
    ensures var a, ns, r := AlignUp(s.arg, 2), owner + [kind] + length + data, Vendor(h, max, s);
            && r.outcome == Found(Field(30, a, |ns|)) && h[a..a + |ns|] == ns
            && r.state.arg == r.state.nsData == a + |ns| && !r.state.known && r.state.reset
  {
    hide AlignUp;
    var a, ns := AlignUp(s.arg, 2), owner + [kind] + length + data;
    assert ns[4] == length[0] && ns[5] == length[1];
    assert h[a..a + |ns|][4] == h[a + 4] && h[a..a + |ns|][5] == h[a + 5];
    LittleEndianTwo(length);
  }

  datatype Progress = Go(state: State) | Stop(result: Result)

  /** One bit of the bitmap. */
  function Step(h: seq<byte>, max: nat, s: State): Progress
    requires Ok(h, max, s)
  {
    var slot := s.index % 32;
    if s.shifter % 2 == 0 then
      if slot == EXT then Stop(Result(s, NoMore)) else Go(NextBit(s))
    else if slot == DEFAULT then
      if s.arg > max then Stop(Result(s, Broken)) else Go(NextBit(s.(reset := true, known := true)))
    else if slot == VENDOR then Stop(Vendor(h, max, s))
    else if slot == EXT then
      if s.arg > max then Stop(Result(s, Broken)) else Go(NextWord(h, s))
    else if !s.known then Go(Skip(s))
    else if s.index >= KNOWN_FIELDS then Stop(Result(s, NoMore))
    else if s.index == 18 then
      if s.nsData < 0 then Stop(Result(s, Wild)) else Go(Skip(s))
    else Stop(Take(s, max, AlignOf(s.index), SizeOf(s.index)))
  }

  lemma ShiftedStep(w: nat, p: nat)
    ensures Shifted(w, p + 1) == Shifted(w, p) / 2
  {}

  lemma NextBitOk(h: seq<byte>, max: nat, s: State)
    requires Ok(h, max, s) && s.index % 32 != EXT
    ensures Ok(h, max, NextBit(s)) && NextBit(s).index % 32 == s.index % 32 + 1
  {
    hide Shifted, Le32;
    assert (s.index + 1) % 32 == s.index % 32 + 1;
    ShiftedStep(Le32(h, s.next - 4), s.index % 32);
  }

  lemma NextWordOk(h: seq<byte>, max: nat, s: State)
    requires Ok(h, max, s) && s.index % 32 == EXT && s.shifter % 2 == 1
    ensures s.next + 4 <= max && Ok(h, max, NextWord(h, s))
  {
    hide Shifted, Le32;
    assert Bit(Le32(h, s.next - 4), EXT);
    assert NextWord(h, s).index % 32 == 0;
    ShiftedZero(Le32(h, s.next));
  }

  lemma ShiftedZero(w: nat)
    ensures Shifted(w, 0) == w
  {}

  /** How much of the bitmap is left. */
  function WordsLeft(h: seq<byte>, s: State): nat {
    if s.next < |h| then |h| - s.next else 0
  }

  function BitsLeft(s: State): nat {
    32 - s.index % 32
  }

  ghost predicate Less(h: seq<byte>, t: State, s: State) {
    WordsLeft(h, t) < WordsLeft(h, s) || (WordsLeft(h, t) == WordsLeft(h, s) && BitsLeft(t) < BitsLeft(s))
  }

  /** Each step consumes bitmap and keeps the invariant. */
  lemma StepOk(h: seq<byte>, max: nat, s: State)
    requires Ok(h, max, s)
    ensures match Step(h, max, s)
            case Go(t) => Ok(h, max, t) && Less(h, t, s)
            case Stop(r) => r.outcome.Found? ==> Ok(h, max, r.state) && Less(h, r.state, s)
  {
    hide Shifted, Le32, Le16, Chain, AlignUp, AlignOf, SizeOf;
    if s.index % 32 == EXT {
      if s.shifter % 2 == 1 {
        NextWordOk(h, max, s);
      }
    } else {
      NextBitOk(h, max, s);
    }
  }

  /** One call: go on bit by bit until a field or an end is found. */
  function NextField(h: seq<byte>, max: nat, s: State): Result
    requires Ok(h, max, s)
    decreases WordsLeft(h, s), BitsLeft(s)
  {
    StepOk(h, max, s);
    match Step(h, max, s)
    case Go(t) => NextField(h, max, t)
    case Stop(r) => r
  }

  // ----- what a call returns

  /** A field lies within the header, aligned and sized as the format says; vendor data is one field. */
  ghost predicate Proper(max: nat, f: Field) {
    && f.at + f.size <= max
    && if f.index == VENDOR then Aligned(f.at, 2) && f.size >= 6
       else f.index < KNOWN_FIELDS && f.index != 18 && Aligned(f.at, AlignOf(f.index)) && f.size == SizeOf(f.index)
  }

  lemma StepProper(h: seq<byte>, max: nat, s: State)
    requires Ok(h, max, s)
    ensures match Step(h, max, s)
            case Go(t) => true
            case Stop(r) =>
              && (r.outcome.Found? ==> Proper(max, r.outcome.field) && r.state.arg == r.outcome.field.at + r.outcome.field.size)
              && (r.outcome.Wild? ==> s.index == 18 && s.shifter % 2 == 1 && s.known && s.nsData < 0)
  {
    hide Shifted, Le32, Le16, Chain, Aligned, AlignOf, SizeOf;
  }

  /** Every call ends; a field it returns is within the header, aligned and of the right size, and the
      walk goes on from there with less of the bitmap left. */
  lemma {:induction false} NextProper(h: seq<byte>, max: nat, s: State)
    requires Ok(h, max, s)
    ensures var r := NextField(h, max, s);
            r.outcome.Found? ==> && Proper(max, r.outcome.field) && r.state.arg == r.outcome.field.at + r.outcome.field.size
                                 && Ok(h, max, r.state) && Less(h, r.state, s)
    decreases WordsLeft(h, s), BitsLeft(s)
  {
    hide Step, Ok, Proper;
    StepOk(h, max, s);
    StepProper(h, max, s);
    match Step(h, max, s)
    case Go(t) => NextProper(h, max, t);
    case Stop(r) =>
  }

  // ----- headers without the undefined field

  /** After the bits from `slot` on: is the default namespace current, and does numbering start afresh? */
  function KnownAfter(w: nat, slot: nat, known: bool): bool {
    if slot <= VENDOR && Bit(w, VENDOR) then false
    else if slot <= DEFAULT && Bit(w, DEFAULT) then true
    else known
  }

  /** The number of the first bit of the next word. */
  function IndexAfter(w: nat, index: nat, reset: bool): nat {
    var slot := index % 32;
    if reset || (slot <= VENDOR && Bit(w, VENDOR)) || (slot <= DEFAULT && Bit(w, DEFAULT)) then 0 else index + 32 - slot
  }

  /** From bit `index` of the word at w on, no word of the default namespace has the undefined bit 18. */
  ghost predicate Defined(h: seq<byte>, max: nat, w: nat, index: nat, known: bool, reset: bool)
    requires max <= |h| && Chain(h, w, max)
    decreases |h| - w
  {
    var word := Le32(h, w);
    && (known && index <= 18 ==> !Bit(word, 18))
    && (Bit(word, EXT) ==> Defined(h, max, w + 4, IndexAfter(word, index, reset), KnownAfter(word, index % 32, known), false))
  }

  lemma AfterSame(w: nat, index: nat, known: bool, reset: bool)
    requires index % 32 != EXT && ((index % 32 == DEFAULT || index % 32 == VENDOR) ==> !Bit(w, index % 32))
    ensures IndexAfter(w, index + 1, reset) == IndexAfter(w, index, reset)
    ensures KnownAfter(w, (index + 1) % 32, known) == KnownAfter(w, index % 32, known)
  {
    hide Bit;
    assert (index + 1) % 32 == index % 32 + 1;
  }

  lemma AfterNamespace(w: nat, index: nat, known: bool, reset: bool, known': bool)
    requires Bit(w, index % 32) && if known' then index % 32 == DEFAULT else index % 32 == VENDOR
    ensures IndexAfter(w, index + 1, true) == IndexAfter(w, index, reset)
    ensures KnownAfter(w, (index + 1) % 32, known') == KnownAfter(w, index % 32, known)
  {
    hide Bit;
    assert (index + 1) % 32 == index % 32 + 1;
  }

  ghost predicate DefinedFrom(h: seq<byte>, max: nat, s: State)
    requires Ok(h, max, s)
  {
    && Defined(h, max, s.next - 4, s.index, s.known, s.reset)
    && (!s.known ==> s.arg == s.nsData)
  }

  lemma NextBitDefined(h: seq<byte>, max: nat, s: State)
    requires Ok(h, max, s) && s.index % 32 != EXT && Ok(h, max, NextBit(s))
    requires Defined(h, max, s.next - 4, s.index, s.known, s.reset)
    requires s.index % 32 == DEFAULT || s.index % 32 == VENDOR ==> s.shifter % 2 == 0
    ensures Defined(h, max, s.next - 4, s.index + 1, s.known, s.reset)
  {
    hide Shifted, Le32, IndexAfter, KnownAfter;
    AfterSame(Le32(h, s.next - 4), s.index, s.known, s.reset);
  }

  lemma NamespaceDefined(h: seq<byte>, max: nat, s: State, known: bool)
    requires Ok(h, max, s) && s.shifter % 2 == 1
    requires if known then s.index % 32 == DEFAULT else s.index % 32 == VENDOR
    requires Defined(h, max, s.next - 4, s.index, s.known, s.reset)
    ensures Defined(h, max, s.next - 4, s.index + 1, known, true)
  {
    hide Shifted, Le32, IndexAfter, KnownAfter;
    AfterNamespace(Le32(h, s.next - 4), s.index, s.known, s.reset, known);
  }

  lemma NextWordDefined(h: seq<byte>, max: nat, s: State)
    requires Ok(h, max, s) && s.index % 32 == EXT && s.shifter % 2 == 1 && s.next + 4 <= max && Ok(h, max, NextWord(h, s))
    requires Defined(h, max, s.next - 4, s.index, s.known, s.reset)
    ensures Defined(h, max, s.next, NextWord(h, s).index, s.known, false)
  {
    hide Shifted, Le32;
    assert Bit(Le32(h, s.next - 4), EXT);
  }

  lemma StepDefined(h: seq<byte>, max: nat, s: State)
    requires Ok(h, max, s) && DefinedFrom(h, max, s)
    ensures match Step(h, max, s)
            case Go(t) => Ok(h, max, t) && DefinedFrom(h, max, t) && t.arg == s.arg
            case Stop(r) =>
              && !r.outcome.Wild?
              && (r.outcome.Found? ==> Ok(h, max, r.state) && DefinedFrom(h, max, r.state) && r.outcome.field.at >= s.arg)
  {
    hide Shifted, Le32, Le16, Chain, Defined, AlignOf, SizeOf, Aligned, Bit;
    StepOk(h, max, s);
    var slot := s.index % 32;
    if slot == EXT {
      if s.shifter % 2 == 1 {
        NextWordOk(h, max, s);
        NextWordDefined(h, max, s);
      }
    } else {
      NextBitOk(h, max, s);
      if s.shifter % 2 == 1 && (slot == DEFAULT || slot == VENDOR) {
        NamespaceDefined(h, max, s, slot == DEFAULT);
      } else {
        NextBitDefined(h, max, s);
        if s.index == 18 && s.known {
          UndefinedAbsent(h, max, s);
        }
      }
    }
  }

  lemma UndefinedAbsent(h: seq<byte>, max: nat, s: State)
    requires Ok(h, max, s) && Defined(h, max, s.next - 4, s.index, s.known, s.reset) && s.known && s.index == 18
    ensures s.shifter % 2 == 0
  {
    hide Shifted, Le32;
    assert !Bit(Le32(h, s.next - 4), 18);
  }

  /** Without the undefined bit no call follows an unset pointer, and fields come in the order of the
      header without overlap. */
  lemma {:induction false} NextDefined(h: seq<byte>, max: nat, s: State)
    requires Ok(h, max, s) && DefinedFrom(h, max, s)
    ensures var r := NextField(h, max, s);
            && !r.outcome.Wild?
            && (r.outcome.Found? ==> Ok(h, max, r.state) && DefinedFrom(h, max, r.state) && r.outcome.field.at >= s.arg)
    decreases WordsLeft(h, s), BitsLeft(s)
  {
    hide Step, Ok, DefinedFrom;
    StepOk(h, max, s);
    StepDefined(h, max, s);
    match Step(h, max, s)
    case Go(t) => NextDefined(h, max, t);
    case Stop(r) =>
  }

  // ----- the iterator in place

  class Iterator {
    const h: seq<byte>
    const maxLength: nat
    var arg: nat
    var argIndex: nat
    var shifter: nat
    var nextBitmap: nat
    var nextNsData: int
    var known: bool
    var resetOnExt: bool
    var thisArg: nat
    var thisIndex: nat
    var thisSize: nat

    ghost function Abs(): State
      reads this
    {
      State(arg, argIndex, shifter, nextBitmap, nextNsData, known, resetOnExt)
    }

    constructor (h: seq<byte>, maxLength: nat, arg: nat)
      requires |h| >= FIXED
      ensures this.h == h && this.maxLength == maxLength && Abs() == State(arg, 0, Le32(h, 4), 8, -1, true, false)
    {
      this.h, this.maxLength, this.arg := h, maxLength, arg;
      argIndex, shifter, nextBitmap, nextNsData, known, resetOnExt := 0, Le32(h, 4), 8, -1, true, false;
      thisArg, thisIndex, thisSize := arg, 0, 0;
    }

    /** One call: on to the next field. */
    method Next() returns (outcome: Outcome)
      requires Ok(h, maxLength, Abs())
      modifies this
      ensures outcome == NextField(h, maxLength, old(Abs())).outcome
      ensures outcome.Found? ==> Abs() == NextField(h, maxLength, old(Abs())).state && outcome.field == Field(thisIndex, thisArg, thisSize)
    {
      hide Ok, Step, WordsLeft, BitsLeft;
      var done := false;
      outcome := NoMore;
      while !done
        invariant !done ==> Ok(h, maxLength, Abs()) && NextField(h, maxLength, Abs()) == NextField(h, maxLength, old(Abs()))
        invariant done ==> outcome == NextField(h, maxLength, old(Abs())).outcome
        invariant done && outcome.Found? ==>
                    Abs() == NextField(h, maxLength, old(Abs())).state && outcome.field == Field(thisIndex, thisArg, thisSize)
        decreases !done, WordsLeft(h, Abs()), BitsLeft(Abs())
      {
        StepOk(h, maxLength, Abs());
        done, outcome := NextBitOrField();
      }
    }

    /** Alignment is relative to the start of the header. */
    method Pad(align: nat)
      requires Alignment(align)
      modifies this`arg
      ensures arg == AlignUp(old(arg), align)
    {
      hide AlignUp;
      PaddingAligns(arg, align);
      var pad := arg % align;
      if pad != 0 {
        arg := arg + align - pad;
      }
    }

    /** The call is over with this result, or goes on from this state. */
    ghost predicate Made(p: Progress, done: bool, outcome: Outcome)
      reads this
    {
      match p
      case Go(t) => !done && Abs() == t
      case Stop(r) => && done && outcome == r.outcome
                      && (outcome.Found? ==> Abs() == r.state && outcome.field == Field(thisIndex, thisArg, thisSize))
    }

    /** Pad, check and pass over a field. */
    method TakeField(align: nat, size: nat) returns (ok: bool)
      requires Alignment(align)
      modifies this`arg, this`thisIndex, this`thisArg, this`thisSize
      ensures var a := AlignUp(old(arg), align);
              && ok == (a + size <= maxLength) && arg == a + size
              && thisIndex == argIndex && thisArg == a && thisSize == size
    {
      hide AlignUp;
      Pad(align);
      thisIndex, thisArg, thisSize := argIndex, arg, size;
      arg := arg + size;
      ok := arg <= maxLength;
    }

    method VendorNamespace() returns (done: bool, outcome: Outcome)
      requires maxLength <= |h|
      modifies this
      ensures Made(Stop(Vendor(h, maxLength, old(Abs()))), done, outcome)
    {
      hide AlignUp, Le16;
      done := true;
      Pad(2);
      if arg + 6 > maxLength {
        return true, Broken;
      }
      var size := 6 + Le16(h, arg + 4);
      known := false;
      nextNsData := arg + size;
      thisIndex, thisArg, thisSize := VENDOR, arg, size;
      arg := arg + size;
      if arg > maxLength {
        return true, Broken;
      }
      resetOnExt := true;
      shifter, argIndex := shifter / 2, argIndex + 1;
      outcome := Found(Field(thisIndex, thisArg, thisSize));
    }

    /** A bit that stands for a field of the current namespace. */
    method NamespaceField() returns (done: bool, outcome: Outcome)
      requires Ok(h, maxLength, Abs()) && shifter % 2 == 1 && argIndex % 32 < DEFAULT
      modifies this
      ensures Made(Step(h, maxLength, old(Abs())), done, outcome)
    {
      hide Ok, Le32, Le16, AlignUp, AlignOf, SizeOf, Vendor, NextWord;
      StateFacts(h, maxLength, Abs());
      var align, size := 0, 0;
      if !known || argIndex >= KNOWN_FIELDS {
        if known {
          return true, NoMore;
        }
      } else {
        align, size := AlignOf(argIndex), SizeOf(argIndex);
        DefinedAlign(argIndex);
      }
      if align == 0 {
        if nextNsData < 0 {
          return true, Wild;
        }
        arg, known := nextNsData, false;
        shifter, argIndex := shifter / 2, argIndex + 1;
        return false, NoMore;
      }
      var ok := TakeField(align, size);
      if !ok {
        return true, Broken;
      }
      shifter, argIndex := shifter / 2, argIndex + 1;
      return true, Found(Field(thisIndex, thisArg, thisSize));
    }

    /** One bit of the bitmap; the outcome counts only when done. */
    method NextBitOrField() returns (done: bool, outcome: Outcome)
      requires Ok(h, maxLength, Abs())
      modifies this
      ensures Made(Step(h, maxLength, old(Abs())), done, outcome)
    {
      hide Ok, Le32, Le16, AlignUp, AlignOf, SizeOf, Take, Vendor;
      StateFacts(h, maxLength, Abs());
      AlignOne(arg);
      var slot := argIndex % 32;
      if shifter % 2 == 0 {
        if slot == EXT {
          return true, NoMore;
        }
        shifter, argIndex := shifter / 2, argIndex + 1;
        return false, NoMore;
      }
      if slot < DEFAULT {
        done, outcome := NamespaceField();
      } else if slot == VENDOR {
        done, outcome := VendorNamespace();
      } else {
        var ok := TakeField(1, 0);
        if !ok {
          return true, Broken;
        }
        if slot == DEFAULT {
          resetOnExt, known := true, true;
          shifter, argIndex := shifter / 2, argIndex + 1;
        } else {
          shifter, nextBitmap := Le32(h, nextBitmap), nextBitmap + 4;
          argIndex := if resetOnExt then 0 else argIndex + 1;
          resetOnExt := false;
        }
        return false, NoMore;
      }
    }
  }

  lemma StateFacts(h: seq<byte>, max: nat, s: State)
    requires Ok(h, max, s)
    ensures max <= |h| && (!s.known ==> s.nsData >= 0)
    ensures s.index % 32 == EXT && s.shifter % 2 == 1 ==> s.next + 4 <= |h|
  {
    hide Le32;
    if s.index % 32 == EXT && s.shifter % 2 == 1 {
      NextWordOk(h, max, s);
    }
  }

  lemma AlignOne(x: nat)
    ensures AlignUp(x, 1) == x
  {}

  lemma DefinedAlign(i: nat)
    requires i < KNOWN_FIELDS
    ensures AlignOf(i) == 0 <==> i == 18
  {}

  // ----- whole headers

  /** The bytes the header claims; the fixed part is read in any case. */
  function Header(packet: seq<byte>): (h: seq<byte>)
    requires |packet| >= FIXED && Le16(packet, 2) <= |packet|
    ensures |h| == (if Le16(packet, 2) < FIXED then FIXED else Le16(packet, 2))
  {
    packet[..if Le16(packet, 2) < FIXED then FIXED else Le16(packet, 2)]
  }

  /** Version 0, a length within the packet, and bitmap words within that length. */
  predicate Accepted(packet: seq<byte>) {
    && |packet| >= FIXED && packet[0] == 0 && Le16(packet, 2) <= |packet|
    && Chain(Header(packet), 4, Le16(packet, 2))
  }

  lemma ChainUnfold(h: seq<byte>, w: nat, max: nat)
    requires max <= |h| && w + 4 <= |h|
    ensures Chain(h, w, max) <==> (Bit(Le32(h, w), EXT) ==> w + 8 <= max && Chain(h, w + 4, max))
    ensures Chain(h, w, max) ==> ChainEnd(h, w, max) == if Bit(Le32(h, w), EXT) then ChainEnd(h, w + 4, max) else w + 4
  {}

  /** The bitmap words, one after the other. */
  method SkipWords(h: seq<byte>, max: nat) returns (ok: bool, arg: nat)
    requires max <= |h| && FIXED <= |h|
    ensures ok <==> Chain(h, 4, max)
    ensures ok ==> arg == ChainEnd(h, 4, max)
  {
    hide Chain, ChainEnd, Bit, Le32;
    arg := FIXED;
    ChainUnfold(h, 4, max);
    ok := true;
    if Bit(Le32(h, 4), EXT) {
      if arg + 4 > max {
        return false, arg;
      }
      ChainUnfold(h, arg, max);
      while Bit(Le32(h, arg), EXT)
        invariant FIXED <= arg && arg + 4 <= max
        invariant Chain(h, 4, max) <==> Chain(h, arg, max)
        invariant Chain(h, 4, max) ==> ChainEnd(h, 4, max) == ChainEnd(h, arg, max)
        decreases max - arg
      {
        ChainUnfold(h, arg, max);
        arg := arg + 4;
        if arg + 4 > max {
          return false, arg;
        }
      }
      ChainUnfold(h, arg, max);
      arg := arg + 4;
    }
  }

  method Init(packet: seq<byte>) returns (it: Iterator?)
    ensures it != null <==> Accepted(packet)
    ensures it != null ==> && fresh(it) && it.maxLength == Le16(packet, 2) && it.h == Header(packet)
                           && it.Abs() == Start(it.h, it.maxLength) && Ok(it.h, it.maxLength, it.Abs())
  {
    hide Chain, Le16, Le32;
    if |packet| < FIXED || packet[0] != 0 {
      return null;
    }
    var max := Le16(packet, 2);
    if |packet| < max {
      return null;
    }
    var h := Header(packet);
    var ok, arg := SkipWords(h, max);
    if !ok {
      return null;
    }
    ShiftedZero(Le32(h, 4));
    it := new Iterator(h, max, arg);
  }

  /** Fields follow each other without overlap. */
  ghost predicate InOrder(fs: seq<Field>, end: nat) {
    && (forall i :: 0 <= i < |fs| ==> fs[i].at + fs[i].size <= end)
    && (forall i, j :: 0 <= i < j < |fs| ==> fs[i].at + fs[i].size <= fs[j].at)
  }

  /** No word of the default namespace has the undefined bit. */
  ghost predicate AllDefined(packet: seq<byte>)
    requires Accepted(packet)
  {
    Defined(Header(packet), Le16(packet, 2), 4, 0, true, false)
  }

  /** The fields of the whole walk and how it ends. */
  function Walk(h: seq<byte>, max: nat, s: State): (seq<Field>, Outcome)
    requires Ok(h, max, s)
    decreases WordsLeft(h, s), BitsLeft(s)
  {
    NextProper(h, max, s);
    var r := NextField(h, max, s);
    if r.outcome.Found? then
      var w := Walk(h, max, r.state);
      ([r.outcome.field] + w.0, w.1)
    else ([], r.outcome)
  }

  /** Every field of the packet's header, until the walk ends. */
  method WalkHeader(packet: seq<byte>) returns (accepted: bool, fields: seq<Field>, outcome: Outcome)
    ensures accepted <==> Accepted(packet)
    ensures accepted ==> (fields, outcome) == Walk(Header(packet), Le16(packet, 2), Start(Header(packet), Le16(packet, 2)))
  {
    hide Ok, NextField, Chain, WordsLeft, BitsLeft, Le16;
    fields, outcome := [], NoMore;
    var it := Init(packet);
    if it == null {
      return false, [], NoMore;
    }
    accepted := true;
    ghost var h, max, s := it.h, it.maxLength, it.Abs();
    ghost var whole := Walk(h, max, s);
    assert [] + whole.0 == whole.0;
    var more := true;
    while more
      invariant fresh(it) && it.h == h && it.maxLength == max && |h| >= max
      invariant more ==> Ok(h, max, it.Abs())
      invariant more ==> var w := Walk(h, max, it.Abs()); whole == (fields + w.0, w.1)
      invariant !more ==> whole == (fields, outcome)
      decreases more, WordsLeft(h, it.Abs()), BitsLeft(it.Abs())
    {
      NextProper(h, max, it.Abs());
      outcome := it.Next();
      if outcome.Found? {
        Associates(fields, [outcome.field], Walk(h, max, it.Abs()).0);
        fields := fields + [outcome.field];
      } else {
        assert fields + [] == fields;
        more := false;
      }
    }
  }

  /** Every walk ends, with proper fields only. */
  lemma {:induction false} WalkProper(h: seq<byte>, max: nat, s: State)
    requires Ok(h, max, s)
    ensures var (fs, o) := Walk(h, max, s); !o.Found? && forall i :: 0 <= i < |fs| ==> Proper(max, fs[i])
    decreases WordsLeft(h, s), BitsLeft(s)
  {
    hide Ok, NextField, Proper, WordsLeft, BitsLeft;
    NextProper(h, max, s);
    var r := NextField(h, max, s);
    if r.outcome.Found? {
      WalkProper(h, max, r.state);
    }
  }

  /** A walk without undefined bits never follows an unset pointer, and its fields do not overlap. */
  lemma {:induction false} WalkInOrder(h: seq<byte>, max: nat, s: State)
    requires Ok(h, max, s) && DefinedFrom(h, max, s)
    ensures var (fs, o) := Walk(h, max, s);
            !o.Wild? && InOrder(fs, max) && forall i :: 0 <= i < |fs| ==> fs[i].at >= s.arg
    decreases WordsLeft(h, s), BitsLeft(s)
  {
    hide Ok, NextField, DefinedFrom, AlignOf, SizeOf, Aligned, WordsLeft, BitsLeft;
    NextProper(h, max, s);
    NextDefined(h, max, s);
    var r := NextField(h, max, s);
    if r.outcome.Found? {
      WalkInOrder(h, max, r.state);
    }
  }

  /** The walk of an accepted header whose default-namespace words leave bit 18 unset. */
  lemma DefinedHeaderWalk(packet: seq<byte>)
    requires Accepted(packet) && AllDefined(packet)
    ensures var max := Le16(packet, 2);
            var (fs, o) := Walk(Header(packet), max, Start(Header(packet), max));
            !o.Wild? && InOrder(fs, max) && forall i :: 0 <= i < |fs| ==> Proper(max, fs[i])
  {
    hide Walk, Le16, Le32, Defined, Proper;
    var h, max := Header(packet), Le16(packet, 2);
    ShiftedZero(Le32(h, 4));
    WalkProper(h, max, Start(h, max));
    WalkInOrder(h, max, Start(h, max));
  }

  lemma ShifterBit(h: seq<byte>, max: nat, s: State)
    requires Ok(h, max, s)
    ensures FIXED <= s.next <= |h| && (s.shifter % 2 == 1 <==> Bit(Le32(h, s.next - 4), s.index % 32))
    ensures max <= |h| && Chain(h, s.next - 4, max)
  {}

  // ----- plain headers

  /** Only defined fields, no vendor data, and before a next word a return to the default namespace, which starts the
      numbering afresh. This is what cards with several antennas send. */
  ghost predicate Plain(h: seq<byte>, max: nat, w: nat)
    requires max <= |h| && Chain(h, w, max)
    decreases |h| - w
  {
    var word := Le32(h, w);
    && !Bit(word, 18) && !Bit(word, VENDOR) && (forall i :: KNOWN_FIELDS <= i < DEFAULT ==> !Bit(word, i))
    && (Bit(word, EXT) ==> Bit(word, DEFAULT) && Plain(h, max, w + 4))
  }

  /** Where the format puts the present fields from number i on, one after the other from `at`. */
  function Layout(w: nat, i: nat, at: nat): seq<Field>
    decreases KNOWN_FIELDS - i
  {
    if i >= KNOWN_FIELDS then []
    else if Bit(w, i) && i != 18 then
      var a := AlignUp(at, AlignOf(i));
      [Field(i, a, SizeOf(i))] + Layout(w, i + 1, a + SizeOf(i))
    else Layout(w, i + 1, at)
  }

  /** Where the present fields i .. n - 1 end. */
  function LayoutEnd(w: nat, i: nat, n: nat, at: nat): (e: nat)
    requires n <= KNOWN_FIELDS
    ensures e >= at
    decreases n - i
  {
    if i >= n then at
    else if Bit(w, i) && i != 18 then LayoutEnd(w, i + 1, n, AlignUp(at, AlignOf(i)) + SizeOf(i))
    else LayoutEnd(w, i + 1, n, at)
  }

  lemma WalkStep(h: seq<byte>, max: nat, s: State)
    requires Ok(h, max, s)
    ensures match Step(h, max, s)
            case Go(t) => Ok(h, max, t) && Walk(h, max, s) == Walk(h, max, t)
            case Stop(r) =>
              if r.outcome.Found? then Ok(h, max, r.state) && Walk(h, max, s) == ([r.outcome.field] + Walk(h, max, r.state).0, Walk(h, max, r.state).1)
              else Walk(h, max, s) == ([], r.outcome)
  {
    hide Step, Ok;
    StepOk(h, max, s);
    NextProper(h, max, s);
  }

  /** The fields of this word from number i on, and of the words after it. */
  function WordsLayout(h: seq<byte>, max: nat, w: nat, i: nat, at: nat): seq<Field>
    requires max <= |h| && Chain(h, w, max)
    decreases |h| - w
  {
    var word := Le32(h, w);
    Layout(word, i, at) +
    (if Bit(word, EXT) then WordsLayout(h, max, w + 4, 0, LayoutEnd(word, i, KNOWN_FIELDS, at)) else [])
  }

  function WordsEnd(h: seq<byte>, max: nat, w: nat, i: nat, at: nat): (e: nat)
    requires max <= |h| && Chain(h, w, max)
    ensures e >= LayoutEnd(Le32(h, w), i, KNOWN_FIELDS, at) >= at
    decreases |h| - w
  {
    var word := Le32(h, w);
    var e := LayoutEnd(word, i, KNOWN_FIELDS, at);
    if Bit(word, EXT) then WordsEnd(h, max, w + 4, 0, e) else e
  }

  lemma WordsNext(h: seq<byte>, max: nat, w: nat, i: nat, at: nat)
    requires max <= |h| && Chain(h, w, max) && i < EXT && (i < KNOWN_FIELDS && i != 18 ==> !Bit(Le32(h, w), i))
    ensures WordsLayout(h, max, w, i, at) == WordsLayout(h, max, w, i + 1, at) && WordsEnd(h, max, w, i, at) == WordsEnd(h, max, w, i + 1, at)
  {
    hide Bit, Le32, AlignUp, AlignOf, SizeOf;
  }

  lemma WordsField(h: seq<byte>, max: nat, w: nat, i: nat, at: nat)
    requires max <= |h| && Chain(h, w, max) && i < KNOWN_FIELDS && i != 18 && Bit(Le32(h, w), i)
    ensures var a := AlignUp(at, AlignOf(i));
            && WordsLayout(h, max, w, i, at) == [Field(i, a, SizeOf(i))] + WordsLayout(h, max, w, i + 1, a + SizeOf(i))
            && WordsEnd(h, max, w, i, at) == WordsEnd(h, max, w, i + 1, a + SizeOf(i))
  {
    hide Bit, Le32, AlignUp, AlignOf, SizeOf;
    var a, word := AlignUp(at, AlignOf(i)), Le32(h, w);
    var rest := if Bit(word, EXT) then WordsLayout(h, max, w + 4, 0, LayoutEnd(word, i, KNOWN_FIELDS, at)) else [];
    Associates([Field(i, a, SizeOf(i))], Layout(word, i + 1, a + SizeOf(i)), rest);
  }

  lemma WordsLast(h: seq<byte>, max: nat, w: nat, at: nat)
    requires max <= |h| && Chain(h, w, max)
    ensures WordsLayout(h, max, w, EXT, at) == (if Bit(Le32(h, w), EXT) then WordsLayout(h, max, w + 4, 0, at) else [])
    ensures WordsEnd(h, max, w, EXT, at) == (if Bit(Le32(h, w), EXT) then WordsEnd(h, max, w + 4, 0, at) else at)
  {
    hide Bit, Le32;
  }

  /** From here on the header is plain and long enough. */
  ghost predicate PlainFrom(h: seq<byte>, max: nat, s: State)
    requires Ok(h, max, s)
  {
    && s.known && s.index < 32 && Plain(h, max, s.next - 4)
    && (s.index > DEFAULT && Bit(Le32(h, s.next - 4), DEFAULT) ==> s.reset)
    && WordsEnd(h, max, s.next - 4, s.index, s.arg) <= max
  }

  ghost function FieldsFrom(h: seq<byte>, max: nat, s: State): seq<Field>
    requires Ok(h, max, s)
  {
    WordsLayout(h, max, s.next - 4, s.index, s.arg)
  }

  lemma PlainExt(h: seq<byte>, max: nat, s: State)
    requires Ok(h, max, s) && PlainFrom(h, max, s) && s.index == EXT && s.shifter % 2 == 1
    ensures s.arg <= max && s.next + 4 <= max && Ok(h, max, NextWord(h, s))
    ensures PlainFrom(h, max, NextWord(h, s)) && FieldsFrom(h, max, s) == FieldsFrom(h, max, NextWord(h, s))
  {
    hide Le32, Shifted, AlignUp, AlignOf, SizeOf, Bit, WordsLayout, WordsEnd;
    ShifterBit(h, max, s);
    NextWordOk(h, max, s);
    WordsLast(h, max, s.next - 4, s.arg);
  }

  lemma PlainField(h: seq<byte>, max: nat, s: State)
    requires Ok(h, max, s) && PlainFrom(h, max, s) && s.shifter % 2 == 1 && s.index != DEFAULT && s.index != EXT
    ensures s.index < KNOWN_FIELDS && s.index != 18
    ensures var r := Take(s, max, AlignOf(s.index), SizeOf(s.index));
            && r.outcome.Found? && Ok(h, max, r.state) && PlainFrom(h, max, r.state)
            && FieldsFrom(h, max, s) == [r.outcome.field] + FieldsFrom(h, max, r.state)
  {
    hide Le32, Chain, Shifted, AlignUp, AlignOf, SizeOf, Bit, WordsLayout, WordsEnd;
    ShifterBit(h, max, s);
    NextBitOk(h, max, s);
    WordsField(h, max, s.next - 4, s.index, s.arg);
  }

  lemma PlainBit(h: seq<byte>, max: nat, s: State)
    requires Ok(h, max, s) && PlainFrom(h, max, s) && s.index != EXT && (s.index == DEFAULT || s.shifter % 2 == 0)
    ensures var t := if s.shifter % 2 == 1 then NextBit(s.(reset := true, known := true)) else NextBit(s);
            s.arg <= max && Ok(h, max, t) && PlainFrom(h, max, t) && FieldsFrom(h, max, s) == FieldsFrom(h, max, t)
  {
    hide Le32, Chain, Shifted, AlignUp, AlignOf, SizeOf, Bit, WordsLayout, WordsEnd;
    ShifterBit(h, max, s);
    NextBitOk(h, max, s);
    WordsNext(h, max, s.next - 4, s.index, s.arg);
  }

  lemma PlainStep(h: seq<byte>, max: nat, s: State)
    requires Ok(h, max, s) && PlainFrom(h, max, s)
    ensures match Step(h, max, s)
            case Go(t) => Ok(h, max, t) && PlainFrom(h, max, t) && FieldsFrom(h, max, s) == FieldsFrom(h, max, t)
            case Stop(r) =>
              if r.outcome.Found? then
                Ok(h, max, r.state) && PlainFrom(h, max, r.state) && FieldsFrom(h, max, s) == [r.outcome.field] + FieldsFrom(h, max, r.state)
              else r.outcome == NoMore && FieldsFrom(h, max, s) == []
  {
    hide Ok, PlainFrom, FieldsFrom, Take, NextWord, Vendor;
    PlainFacts(h, max, s);
    if s.index == EXT {
      if s.shifter % 2 == 1 {
        PlainExt(h, max, s);
      }
    } else if s.shifter % 2 == 1 && s.index != DEFAULT {
      PlainField(h, max, s);
    } else {
      PlainBit(h, max, s);
    }
  }

  lemma PlainFacts(h: seq<byte>, max: nat, s: State)
    requires Ok(h, max, s) && PlainFrom(h, max, s)
    ensures s.known && s.index < 32 && max <= |h| && (s.index == EXT && s.shifter % 2 == 0 ==> FieldsFrom(h, max, s) == [])
  {
    hide Le32, Chain, Shifted, WordsEnd, WordsLayout;
    ShifterBit(h, max, s);
    WordsLast(h, max, s.next - 4, s.arg);
  }

  /** The walk over a plain header long enough for its fields returns exactly these fields, where the format puts them. */
  lemma {:induction false} PlainWalk(h: seq<byte>, max: nat, s: State)
    requires Ok(h, max, s) && PlainFrom(h, max, s)
    ensures Walk(h, max, s) == (FieldsFrom(h, max, s), NoMore)
    decreases WordsLeft(h, s), BitsLeft(s)
  {
    hide Ok, Step, Walk, PlainFrom, FieldsFrom, WordsLeft, BitsLeft;
    StepOk(h, max, s);
    WalkStep(h, max, s);
    PlainStep(h, max, s);
    match Step(h, max, s)
    case Go(t) => PlainWalk(h, max, t);
    case Stop(r) =>
      if r.outcome.Found? {
        PlainWalk(h, max, r.state);
      }
  }

  /** A plain header long enough: every present field of every word is found, and the walk ends there. */
  lemma PlainHeader(packet: seq<byte>)
    requires Accepted(packet)
    requires var h, max := Header(packet), Le16(packet, 2);
             Plain(h, max, 4) && WordsEnd(h, max, 4, 0, ChainEnd(h, 4, max)) <= max
    ensures var h, max := Header(packet), Le16(packet, 2);
            Walk(h, max, Start(h, max)) == (WordsLayout(h, max, 4, 0, ChainEnd(h, 4, max)), NoMore)
  {
    hide Walk, WordsLayout, WordsEnd, Le16, Le32, Bit, Plain;
    var h, max := Header(packet), Le16(packet, 2);
    ShiftedZero(Le32(h, 4));
    PlainWalk(h, max, Start(h, max));
  }

  // ----- where alignments and sizes come from

  /** How many integers of one, two, four and eight bytes a field consists of. */
  datatype Parts = Parts(ones: nat, twos: nat, fours: nat, eights: nat)

  function PartsOf(i: nat): Parts {
    match i
    case 0 => Parts(0, 0, 0, 1)
    case 3 => Parts(0, 2, 0, 0)
    case 4 => Parts(0, 1, 0, 0)
    case 7 => Parts(0, 1, 0, 0)
    case 8 => Parts(0, 1, 0, 0)
    case 9 => Parts(0, 1, 0, 0)
    case 14 => Parts(0, 1, 0, 0)
    case 15 => Parts(0, 1, 0, 0)
    case 19 => Parts(3, 0, 0, 0)
    case 20 => Parts(2, 1, 1, 0)
    case 21 => Parts(8, 2, 0, 0)
    case 22 => Parts(2, 1, 0, 1)
    case _ => Parts(1, 0, 0, 0)
  }

  /** A field is as long as its integers together, and aligned as the largest of them. */
  lemma FieldShape(i: nat)
    requires i < KNOWN_FIELDS && i != 18
    ensures var p := PartsOf(i);
            && SizeOf(i) == p.ones + 2 * p.twos + 4 * p.fours + 8 * p.eights
            && AlignOf(i) == if p.eights > 0 then 8 else if p.fours > 0 then 4 else if p.twos > 0 then 2 else 1
  {}

  // ----- when the undefined field is reached

  /** Bits from `index` on that end the walk in the default namespace: fields without a definition. */
  predicate NoUnlisted(word: nat, index: nat) {
    forall i :: index % 32 <= i < DEFAULT && (index >= 32 || i >= KNOWN_FIELDS) ==> !Bit(word, i)
  }

  predicate NoField(word: nat, index: nat) {
    forall i :: index <= i < 18 ==> !Bit(word, i)
  }

  /** In the default namespace and before any vendor data, from bit `index` of the word at w and with data at
      `at`: the walk gets to an undefined bit 18. Either this word has it and the fields before it fit, or
      all fields of this word fit, nothing in it ends the walk or brings vendor data, and a later word does. */
  predicate ReachesUndefined(h: seq<byte>, max: nat, w: nat, index: nat, reset: bool, at: nat)
    requires max <= |h| && Chain(h, w, max)
    decreases |h| - w
  {
    var word, slot := Le32(h, w), index % 32;
    if index <= 18 && Bit(word, 18) then
      NoField(word, index) || LayoutEnd(word, index, 18, at) <= max
    else
      var e := LayoutEnd(word, index, KNOWN_FIELDS, at);
      && Bit(word, EXT) && !(slot <= VENDOR && Bit(word, VENDOR)) && NoUnlisted(word, index) && e <= max
      && ReachesUndefined(h, max, w + 4, IndexAfter(word, index, reset), false, e)
  }

  ghost predicate Reaches(h: seq<byte>, max: nat, s: State)
    requires Ok(h, max, s)
  {
    ReachesUndefined(h, max, s.next - 4, s.index, s.reset, s.arg)
  }

  /** Before any vendor data, in the default namespace. */
  predicate Early(s: State) {
    s.known && s.nsData < 0
  }

  lemma UnsetBit(h: seq<byte>, max: nat, s: State)
    requires Ok(h, max, s) && s.index % 32 != EXT && s.shifter % 2 == 0 && Ok(h, max, NextBit(s))
    ensures Reaches(h, max, NextBit(s)) <==> Reaches(h, max, s)
  {
    hide Shifted, Le32, Chain, AlignUp, AlignOf, SizeOf, IndexAfter, KnownAfter;
    ShifterBit(h, max, s);
    var word := Le32(h, s.next - 4);
    NextBitOk(h, max, s);
    AfterSame(word, s.index, s.known, s.reset);
    hide Bit;
    UnsetWord(word, s.index, s.arg);
  }

  lemma UnsetWord(word: nat, index: nat, at: nat)
    requires index % 32 != EXT && !Bit(word, index % 32)
    ensures index < 18 ==> (NoField(word, index + 1) <==> NoField(word, index)) && LayoutEnd(word, index + 1, 18, at) == LayoutEnd(word, index, 18, at)
    ensures LayoutEnd(word, index + 1, KNOWN_FIELDS, at) == LayoutEnd(word, index, KNOWN_FIELDS, at)
    ensures NoUnlisted(word, index + 1) <==> NoUnlisted(word, index)
  {
    hide Bit, AlignUp, AlignOf, SizeOf;
    assert (index + 1) % 32 == index % 32 + 1;
  }

  lemma SetDefault(h: seq<byte>, max: nat, s: State)
    requires Ok(h, max, s) && s.index % 32 == DEFAULT && s.shifter % 2 == 1 && Ok(h, max, NextBit(s))
    ensures s.arg > max ==> !Reaches(h, max, s)
    ensures var t := NextBit(s.(reset := true, known := true));
            Ok(h, max, t) && (Reaches(h, max, t) <==> Reaches(h, max, s))
  {
    hide Shifted, Le32, Chain, AlignUp, AlignOf, SizeOf, IndexAfter, KnownAfter;
    ShifterBit(h, max, s);
    var word := Le32(h, s.next - 4);
    AfterNamespace(word, s.index, s.known, s.reset, true);
    hide Bit;
    assert (s.index + 1) % 32 == VENDOR;
    assert s.index >= KNOWN_FIELDS;
  }

  lemma SetExt(h: seq<byte>, max: nat, s: State)
    requires Ok(h, max, s) && s.index % 32 == EXT && s.shifter % 2 == 1 && s.next + 4 <= max && Ok(h, max, NextWord(h, s))
    ensures s.arg > max ==> !Reaches(h, max, s)
    ensures s.arg <= max ==> (Reaches(h, max, NextWord(h, s)) <==> Reaches(h, max, s))
  {
    hide Shifted, Le32, Chain, AlignUp, AlignOf, SizeOf;
    ShifterBit(h, max, s);
    hide Bit;
    assert s.index >= KNOWN_FIELDS;
  }

  lemma {:induction false} NoFieldEnd(word: nat, index: nat, at: nat)
    requires NoField(word, index)
    ensures LayoutEnd(word, index, 18, at) == at
    decreases 18 - index
  {
    hide Bit, AlignUp, AlignOf, SizeOf;
    if index < 18 {
      NoFieldEnd(word, index + 1, at);
    }
  }

  /** A field of the word at w that fits changes nothing; one that does not ends the walk. */
  lemma FieldReaches(h: seq<byte>, max: nat, w: nat, index: nat, reset: bool, at: nat, end: nat)
    requires max <= |h| && Chain(h, w, max) && index < KNOWN_FIELDS && index != 18 && Bit(Le32(h, w), index)
    requires end == AlignUp(at, AlignOf(index)) + SizeOf(index)
    ensures if end <= max then ReachesUndefined(h, max, w, index + 1, reset, end) <==> ReachesUndefined(h, max, w, index, reset, at)
            else !ReachesUndefined(h, max, w, index, reset, at)
  {
    hide Le32, AlignUp, AlignOf, SizeOf, IndexAfter, Bit, LayoutEnd, NoField, NoUnlisted;
    var word := Le32(h, w);
    AfterSame(word, index, true, reset);
    SetWord(word, index, at);
    if index < 18 && NoField(word, index + 1) {
      NoFieldEnd(word, index + 1, end);
    }
  }

  lemma SetField(h: seq<byte>, max: nat, s: State)
    requires Ok(h, max, s) && s.shifter % 2 == 1 && s.index < KNOWN_FIELDS && s.index != 18
    ensures var r := Take(s, max, AlignOf(s.index), SizeOf(s.index));
            if r.outcome.Found? then Ok(h, max, r.state) ==> (Reaches(h, max, r.state) <==> Reaches(h, max, s))
            else !Reaches(h, max, s)
  {
    hide Shifted, Le32, Chain, AlignUp, AlignOf, SizeOf, ReachesUndefined;
    ShifterBit(h, max, s);
    FieldReaches(h, max, s.next - 4, s.index, s.reset, s.arg, AlignUp(s.arg, AlignOf(s.index)) + SizeOf(s.index));
  }

  lemma SetWord(word: nat, index: nat, at: nat)
    requires index < KNOWN_FIELDS && index != 18 && Bit(word, index)
    ensures var end := AlignUp(at, AlignOf(index)) + SizeOf(index);
            && (index < 18 ==> !NoField(word, index) && LayoutEnd(word, index, 18, at) == LayoutEnd(word, index + 1, 18, end) >= end)
            && LayoutEnd(word, index, KNOWN_FIELDS, at) == LayoutEnd(word, index + 1, KNOWN_FIELDS, end) >= end
    ensures NoUnlisted(word, index + 1) <==> NoUnlisted(word, index)
  {
    hide Bit, AlignUp, AlignOf, SizeOf;
  }

  /** A bit of a field without a definition ends the walk before anything undefined is reached. */
  lemma UnlistedEnds(h: seq<byte>, max: nat, s: State)
    requires Ok(h, max, s) && s.shifter % 2 == 1 && s.index >= KNOWN_FIELDS && s.index % 32 < DEFAULT
    ensures !Reaches(h, max, s)
  {
    hide Shifted, Le32, Chain, AlignUp, AlignOf, SizeOf, IndexAfter, KnownAfter;
    ShifterBit(h, max, s);
    hide Bit;
    assert !NoUnlisted(Le32(h, s.next - 4), s.index);
  }

  lemma VendorFirst(h: seq<byte>, max: nat, s: State)
    requires Ok(h, max, s) && s.shifter % 2 == 1 && s.index % 32 == VENDOR
    ensures !Reaches(h, max, s)
  {
    hide Shifted, Le32, Chain, AlignUp, AlignOf, SizeOf, IndexAfter, KnownAfter;
    ShifterBit(h, max, s);
  }

  lemma LastWord(h: seq<byte>, max: nat, s: State)
    requires Ok(h, max, s) && s.shifter % 2 == 0 && s.index % 32 == EXT
    ensures !Reaches(h, max, s)
  {
    hide Shifted, Le32, Chain, AlignUp, AlignOf, SizeOf, IndexAfter, KnownAfter;
    ShifterBit(h, max, s);
  }

  lemma UndefinedHere(h: seq<byte>, max: nat, s: State)
    requires Ok(h, max, s) && s.shifter % 2 == 1 && s.index == 18
    ensures Reaches(h, max, s)
  {
    hide Shifted, Le32, Chain, AlignUp, AlignOf, SizeOf, IndexAfter, KnownAfter;
    ShifterBit(h, max, s);
  }

  /** After vendor data the pointer is set. */
  lemma {:induction false} SetPointer(h: seq<byte>, max: nat, s: State)
    requires Ok(h, max, s) && s.nsData >= 0
    ensures Walk(h, max, s).1 != Wild
    decreases WordsLeft(h, s), BitsLeft(s)
  {
    hide Ok, Walk, WordsLeft, BitsLeft, Le32, Le16, AlignUp, AlignOf, SizeOf;
    StepOk(h, max, s);
    WalkStep(h, max, s);
    match Step(h, max, s)
    case Go(t) => SetPointer(h, max, t);
    case Stop(r) =>
      if r.outcome.Found? {
        SetPointer(h, max, r.state);
      }
  }

  /** What one step does to reaching the undefined field. */
  lemma StepReaches(h: seq<byte>, max: nat, s: State)
    requires Ok(h, max, s) && Early(s)
    ensures match Step(h, max, s)
            case Go(t) => Ok(h, max, t) && Early(t) && (Reaches(h, max, t) <==> Reaches(h, max, s))
            case Stop(r) =>
              if r.outcome.Found? then
                && Ok(h, max, r.state)
                && (if Early(r.state) then Reaches(h, max, r.state) <==> Reaches(h, max, s) else r.state.nsData >= 0 && !Reaches(h, max, s))
              else r.outcome == Wild <==> Reaches(h, max, s)
  {
    hide Ok, Le32, Le16, AlignUp, AlignOf, SizeOf, Reaches, ReachesUndefined;
    StepOk(h, max, s);
    var slot := s.index % 32;
    if s.shifter % 2 == 0 {
      if slot == EXT {
        LastWord(h, max, s);
      } else {
        UnsetBit(h, max, s);
      }
    } else if slot == DEFAULT {
      NextBitOk(h, max, s);
      SetDefault(h, max, s);
    } else if slot == VENDOR {
      VendorFirst(h, max, s);
    } else if slot == EXT {
      NextWordOk(h, max, s);
      SetExt(h, max, s);
    } else if s.index >= KNOWN_FIELDS {
      UnlistedEnds(h, max, s);
    } else if s.index == 18 {
      UndefinedHere(h, max, s);
    } else {
      SetField(h, max, s);
    }
  }

  /** The whole walk ends at the unset pointer exactly when it reaches the undefined field. */
  lemma {:induction false} WildExactly(h: seq<byte>, max: nat, s: State)
    requires Ok(h, max, s) && Early(s)
    ensures Walk(h, max, s).1 == Wild <==> Reaches(h, max, s)
    decreases WordsLeft(h, s), BitsLeft(s)
  {
    hide Ok, Step, Walk, WordsLeft, BitsLeft, Reaches;
    StepOk(h, max, s);
    WalkStep(h, max, s);
    StepReaches(h, max, s);
    match Step(h, max, s)
    case Go(t) => WildExactly(h, max, t);
    case Stop(r) =>
      if r.outcome.Found? {
        if Early(r.state) {
          WildExactly(h, max, r.state);
        } else {
          SetPointer(h, max, r.state);
        }
      }
  }

  /** The condition on the packet. */
  predicate UndefinedReached(packet: seq<byte>)
    requires Accepted(packet)
  {
    var h, max := Header(packet), Le16(packet, 2);
    ReachesUndefined(h, max, 4, 0, false, ChainEnd(h, 4, max))
  }

  /** For every accepted header: the walk follows the pointer that only vendor data sets if and only if it
      gets to an undefined bit 18 of the default namespace before any vendor data. */
  lemma UndefinedFieldExactly(packet: seq<byte>)
    requires Accepted(packet)
    ensures var h, max := Header(packet), Le16(packet, 2);
            Walk(h, max, Start(h, max)).1 == Wild <==> UndefinedReached(packet)
  {
    hide Walk, Le16, Le32, ReachesUndefined;
    var h, max := Header(packet), Le16(packet, 2);
    ShiftedZero(Le32(h, 4));
    WildExactly(h, max, Start(h, max));
  }

  /** The simplest case: a word whose lowest bit is 18 makes the very call follow the pointer. */
  lemma {:induction false} UndefinedFieldFirst(h: seq<byte>, max: nat, s: State)
    requires Ok(h, max, s) && Early(s) && s.index <= 18
    requires var w := Le32(h, s.next - 4); Bit(w, 18) && NoField(w, s.index)
    ensures NextField(h, max, s).outcome == Wild
    decreases 18 - s.index
  {
    hide Ok, Le32, Chain, Take, Vendor, NextWord, Shifted;
    ShifterBit(h, max, s);
    StepOk(h, max, s);
    if s.index < 18 {
      assert Step(h, max, s) == Go(NextBit(s));
      UndefinedFieldFirst(h, max, NextBit(s));
    } else {
      assert Step(h, max, s) == Stop(Result(s, Wild));
    }
  }

  function PowerOfTwo(n: nat): nat {
    if n == 0 then 1 else 2 * PowerOfTwo(n - 1)
  }

  lemma {:induction false} ShiftPower(n: nat, p: nat)
    requires p <= n
    ensures Shifted(PowerOfTwo(n), p) == PowerOfTwo(n - p)
  {
    if p > 0 {
      ShiftPower(n, p - 1);
    }
  }

  lemma {:induction false} ShiftedAway(n: nat, p: nat)
    requires p > n
    ensures Shifted(PowerOfTwo(n), p) == 0
  {
    if p > n + 1 {
      ShiftedAway(n, p - 1);
    } else {
      ShiftPower(n, n);
    }
  }

  lemma PowerEighteen()
    ensures PowerOfTwo(18) == 0x4_0000
  {
    assert PowerOfTwo(6) == 64;
    assert PowerOfTwo(12) == 4096;
  }

  lemma WordEighteen(i: nat)
    ensures Bit(0x4_0000, i) <==> i == 18
  {
    PowerEighteen();
    if i <= 18 {
      ShiftPower(18, i);
    } else {
      ShiftedAway(18, i);
    }
  }

  const BIT_EIGHTEEN: seq<byte> := [0, 0, 8, 0, 0, 0, 4, 0]

  /** An eight-byte header with nothing but bit 18 is accepted, and its walk ends at that pointer. */
  lemma UndefinedFieldExample()
    ensures Accepted(BIT_EIGHTEEN) && Walk(Header(BIT_EIGHTEEN), 8, Start(Header(BIT_EIGHTEEN), 8)) == ([], Wild)
  {
    var h := BIT_EIGHTEEN;
    hide NextField, Shifted;
    assert Header(h) == h;
    assert Le32(h, 4) == 0x4_0000;
    forall i ensures Bit(0x4_0000, i) <==> i == 18 { WordEighteen(i); }
    ShiftedZero(0x4_0000);
    UndefinedFieldFirst(h, 8, Start(h, 8));
  }
}
