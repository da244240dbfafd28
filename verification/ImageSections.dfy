/** Which blocks of an image are signature blocks, said of the image and its pointers alone: no state machine, no
    section list. What the state machine of `Image` programs and refuses follows from it. */
module ImageSections {
  import opened Bits
  import opened Image

  // ---- signature blocks ----

  predicate HasMagic(b: Block) {
    FromLE32(b[..4]) == CMF_MAGIC
  }

  // the image names places by their address in flash: one pointer of its second block exceeds the slot
  predicate IsAbsolute(image: Image, info: Info) {
    && |image| >= 2 && HasMagic(image[0])
    && (Ptr(image[1], 0) > Unsigned(info.size) || Ptr(image[1], 1) > Unsigned(info.size)
        || Ptr(image[1], 2) > Unsigned(info.size) || Ptr(image[1], 3) > Unsigned(info.size))
  }

  // where pointers count from
  function Base(image: Image, info: Info): u64 {
    if IsAbsolute(image, info) then info.offset else 0
  }

  // the places that the pointers of a signature block name, counted from the start of the image
  function Named(b: Block, base: u64): seq<u64> {
    NamedBy(Ptr(b, 0), base) + NamedBy(Ptr(b, 1), base) + NamedBy(Ptr(b, 2), base) + NamedBy(Ptr(b, 3), base)
  }

  function NamedBy(p: u64, base: u64): seq<u64> {
    if p == 0 then [] else [(p - base) % U64_MOD]
  }

  // the places that the signature blocks among the first n blocks name, in order
  function Places(image: Image, info: Info, n: nat): seq<u64>
    requires n <= |image|
    decreases n, 0
  {
    if n == 0 then []
    else
      Places(image, info, n - 1)
      + if IsSignature(image, info, n - 1) then Named(image[n - 1], Base(image, info)) else []
  }

  function AllOf(places: seq<u64>): set<u64> {
    {0} + set x | x in places
  }

  // A place counts if it is the start of the image or named when fewer than 64 different ones have been.
  predicate Counts(place: int, places: seq<u64>) {
    place == 0 || exists k :: 0 <= k < |places| && places[k] == place && |AllOf(places[..k])| < MAX_SECTIONS
  }

  // Block i starts a section: it is the first one, or named by an earlier signature block.
  predicate IsSection(image: Image, info: Info, i: nat)
    requires i < |image|
    decreases i, 1
  {
    Counts(BLOCK * i, Places(image, info, i))
  }

  /** Block i is a signature block: it comes right after a section that starts with the magic number, and does not
      itself start a section. */
  predicate IsSignature(image: Image, info: Info, i: nat)
    requires i < |image|
    decreases i, 2
  {
    i > 0 && IsSection(image, info, i - 1) && HasMagic(image[i - 1]) && !IsSection(image, info, i)
  }

  // ---- the state machine block by block ----

  // the state after the first n blocks
  function After(image: Image, info: Info, n: nat): State
    requires n <= |image|
  {
    if n == 0 then INIT else Classify(Enter(After(image, info, n - 1)), image[n - 1], info)
  }

  lemma {:induction false} StateAtIsAfter(image: Image, info: Info, k: nat, i: nat)
    requires k + i < |image|
    ensures StateAt(After(image, info, k), image[k..], info, i) == Enter(After(image, info, k + i))
    decreases i
  {
    hide Enter, Classify;
    if i > 0 {
      assert image[k..][1..] == image[k + 1..] && image[k..][0] == image[k];
      StateAtIsAfter(image, info, k + 1, i - 1);
    }
  }

  // ---- the section list ----

  // The list holds the places that count, up to 64.
  ghost predicate Lists(sections: seq<u64>, places: seq<u64>) {
    && (forall x: u64 :: x in sections <==> Counts(x, places))
    && |sections| == (if |AllOf(places)| < MAX_SECTIONS then |AllOf(places)| else MAX_SECTIONS)
  }

  lemma AllOfSnoc(places: seq<u64>, x: u64)
    ensures AllOf(places + [x]) == AllOf(places) + {x}
    ensures forall k :: 0 <= k <= |places| ==> (places + [x])[..k] == places[..k]
  {
  }

  lemma FewerBefore(places: seq<u64>, k: nat)
    requires k <= |places|
    ensures |AllOf(places[..k])| <= |AllOf(places)|
  {
    Subset(AllOf(places[..k]), AllOf(places));
  }

  lemma {:induction false} Subset(a: set<u64>, b: set<u64>)
    requires a <= b
    ensures |a| <= |b|
  {
    if x :| x in a {
      Subset(a - {x}, b - {x});
    }
  }

  lemma CountsSnoc(place: u64, places: seq<u64>, x: u64)
    ensures Counts(place, places + [x])
      <==> Counts(place, places) || (place == x && |AllOf(places)| < MAX_SECTIONS)
  {
    hide AllOf;
    AllOfSnoc(places, x);
    if Counts(place, places) && place != 0 {
      var k :| 0 <= k < |places| && places[k] == place && |AllOf(places[..k])| < MAX_SECTIONS;
      assert (places + [x])[k] == place && (places + [x])[..k] == places[..k];
    }
    if place == x && |AllOf(places)| < MAX_SECTIONS {
      assert (places + [x])[|places|] == place && (places + [x])[..|places|] == places;
    }
  }

  lemma AllCount(places: seq<u64>, x: u64)
    requires |AllOf(places)| < MAX_SECTIONS
    ensures x in AllOf(places) <==> Counts(x, places)
  {
    if x in AllOf(places) && x != 0 {
      var k :| 0 <= k < |places| && places[k] == x;
      FewerBefore(places, k);
    }
  }

  lemma ListsSnoc(sections: seq<u64>, places: seq<u64>, x: u64)
    requires Lists(sections, places)
    ensures Lists(AddSection(sections, x), places + [x])
  {
    hide AllOf, Counts;
    AllOfSnoc(places, x);
    forall y: u64 ensures Counts(y, places + [x])
      <==> Counts(y, places) || (y == x && |AllOf(places)| < MAX_SECTIONS)
    {
      CountsSnoc(y, places, x);
    }
    if |AllOf(places)| < MAX_SECTIONS {
      AllCount(places, x);
    } else {
      Subset(AllOf(places), AllOf(places + [x]));
    }
  }

  lemma {:induction false} ListsMore(sections: seq<u64>, b: Block, base: u64, n: nat, places: seq<u64>)
    requires n <= 4 && Lists(sections, places)
    ensures Lists(AddPtrs(sections, b, base, n), places + NamedUpTo(b, base, n))
  {
    hide Ptr, Lists;
    if n == 0 {
      assert places + [] == places;
    } else {
      ListsMore(sections, b, base, n - 1, places);
      var rest, more := places + NamedUpTo(b, base, n - 1), NamedBy(Ptr(b, n - 1), base);
      assert places + NamedUpTo(b, base, n) == rest + more;
      if more == [] {
        assert rest + more == rest;
      } else {
        ListsSnoc(AddPtrs(sections, b, base, n - 1), rest, more[0]);
      }
    }
  }

  function NamedUpTo(b: Block, base: u64, n: nat): seq<u64>
    requires n <= 4
  {
    if n == 0 then [] else NamedUpTo(b, base, n - 1) + NamedBy(Ptr(b, n - 1), base)
  }

  lemma NamedIs(b: Block, base: u64)
    ensures NamedUpTo(b, base, 4) == Named(b, base)
  {
    hide Ptr;
    var n1, n2, n3, n4 := NamedBy(Ptr(b, 0), base), NamedBy(Ptr(b, 1), base), NamedBy(Ptr(b, 2), base),
      NamedBy(Ptr(b, 3), base);
    assert NamedUpTo(b, base, 1) == [] + n1 == n1;
    assert NamedUpTo(b, base, 2) == n1 + n2 && NamedUpTo(b, base, 3) == n1 + n2 + n3;
  }

  lemma OnlyTheStart()
    ensures Lists([0], [])
  {
    assert AllOf([]) == {0};
  }

  // ---- what the state machine knows ----

  ghost predicate Knows(st: State, image: Image, info: Info, n: nat)
    requires n <= |image|
  {
    && st.offset == BLOCK * (n - 1) && Lists(st.sections, Places(image, info, n))
    && st.kind == (if n > 0 && IsSection(image, info, n - 1) && HasMagic(image[n - 1]) then SignatureBlock
                   else RegularBlock)
    && st.absolute == (n >= 2 && IsAbsolute(image, info))
  }

  lemma EntersAs(st: State, image: Image, info: Info, n: nat)
    requires n < |image| && Knows(st, image, info, n)
    ensures Enter(st).kind == SectionBlock <==> IsSection(image, info, n)
    ensures Enter(st).kind == SignatureBlock <==> IsSignature(image, info, n)
  {
    hide HasMagic, IsAbsolute, Counts, Places;
    var x := BLOCK * n;
    if x < U64_MOD {
      assert x in st.sections <==> Counts(x, Places(image, info, n));
    } else {
      TooFarToCount(x, Places(image, info, n));
    }
  }

  lemma TooFarToCount(x: int, places: seq<u64>)
    requires x >= U64_MOD
    ensures !Counts(x, places)
  {
  }

  // Only the second block decides: it is a signature block if the first has the magic number.
  lemma SecondBlock(image: Image, info: Info, n: nat)
    requires n < |image|
    ensures IsSection(image, info, 0)
    ensures n == 1 && HasMagic(image[0]) ==> IsSignature(image, info, 1)
    ensures n == 1 && !HasMagic(image[0]) ==> !IsSignature(image, info, 1) && !IsAbsolute(image, info)
  {
    assert Places(image, info, 0) == [];
    if n == 1 {
      assert Places(image, info, 1) == [];
    }
  }

  lemma AbsoluteThere(st: State, image: Image, info: Info, n: nat)
    requires n < |image| && Knows(st, image, info, n) && IsSignature(image, info, n)
    ensures AbsoluteAfter(Enter(st), image[n], info) == IsAbsolute(image, info)
  {
    hide HasMagic, Ptr, Places, Counts, Lists;
    SecondBlock(image, info, n);
    if SomePtrAbove(image[n], info.size) {
      var x :| 0 <= x < 4 && Ptr(image[n], x) > Unsigned(info.size);
      assert x == 0 || x == 1 || x == 2 || x == 3;
    }
  }

  lemma {:induction false} KnowsAll(image: Image, info: Info, n: nat)
    requires n <= |image|
    ensures Knows(After(image, info, n), image, info, n)
  {
    hide HasMagic, Ptr, Lists, Counts, FromLE32, AbsoluteAfter, IsAbsolute, Named, AddPtrs;
    if n == 0 {
      OnlyTheStart();
    } else {
      KnowsAll(image, info, n - 1);
      var st, b := After(image, info, n - 1), image[n - 1];
      EntersAs(st, image, info, n - 1);
      SecondBlock(image, info, n - 1);
      HasMagicIs(b);
      assert Places(image, info, n - 1) + [] == Places(image, info, n - 1);
      if IsSignature(image, info, n - 1) {
        AbsoluteThere(st, image, info, n - 1);
        ListsMore(st.sections, b, Base(image, info), 4, Places(image, info, n - 1));
        NamedIs(b, Base(image, info));
      }
    }
  }

  lemma HasMagicIs(b: Block)
    ensures HasMagic(b) <==> FromLE32(b[..4]) == CMF_MAGIC
  {
  }

  lemma EntersBlock(image: Image, info: Info, i: nat)
    requires i < |image|
    ensures var e := StateAt(INIT, image, info, i);
      && (e.kind == SignatureBlock <==> IsSignature(image, info, i))
      && (e.kind == SignatureBlock ==> AbsoluteAfter(e, image[i], info) == IsAbsolute(image, info))
  {
    hide Enter, Knows, AbsoluteAfter, IsAbsolute, IsSignature;
    StateAtIsAfter(image, info, 0, i);
    assert image[0..] == image;
    KnowsAll(image, info, i);
    EntersAs(After(image, info, i), image, info, i);
    if IsSignature(image, info, i) {
      AbsoluteThere(After(image, info, i), image, info, i);
    }
  }

  /** What is programmed: the signature blocks of an image that is not absolute differ from those given exactly in
      their pointers, moved by the slot offset, and the CRC word. Every other block is as it came. */
  lemma ProgrammedExactly(image: Image, info: Info, i: nat)
    requires i < |image|
    ensures
      if IsSignature(image, info, i) && !IsAbsolute(image, info)
      then MovedExactly(image[i], Relocate(INIT, image, info)[i], info.offset)
      else Relocate(INIT, image, info)[i] == image[i]
  {
    hide IsSignature, IsAbsolute, MovedExactly, StateAt, Relocate, AbsoluteAfter;
    EntersBlock(image, info, i);
    ImageRelocationIsExact(INIT, image, info, i);
  }

  // What is asked of a signature block: a good CRC, and every pointer that is not zero names a place in the slot.
  predicate Sound(b: Block, base: u64, size: int) {
    CrcOk(b) && forall x :: 0 <= x < 4 && Ptr(b, x) != 0 ==> Signed((Ptr(b, x) - base) % U64_MOD) <= size
  }

  lemma {:induction false} AcceptedFrom(image: Image, info: Info, k: nat)
    requires k <= |image|
    ensures Accepted(After(image, info, k), image[k..], info)
      <==> forall i :: k <= i < |image| ==> Accepts(Enter(After(image, info, i)), image[i], info)
    decreases |image| - k
  {
    hide Enter, Classify, Accepts;
    if k < |image| {
      var rest := image[k..];
      assert rest[0] == image[k] && rest[1..] == image[k + 1..];
      AcceptedFrom(image, info, k + 1);
    }
  }

  lemma AcceptsBlock(image: Image, info: Info, i: nat)
    requires i < |image|
    ensures Accepts(Enter(After(image, info, i)), image[i], info)
      <==> (IsSignature(image, info, i) ==> Sound(image[i], Base(image, info), info.size))
  {
    hide Enter, Knows, IsSignature, IsAbsolute, CrcOk, Ptr, AbsoluteAfter;
    KnowsAll(image, info, i);
    EntersAs(After(image, info, i), image, info, i);
    if IsSignature(image, info, i) {
      AbsoluteThere(After(image, info, i), image, info, i);
    }
  }

  /** What is accepted: exactly the images whose signature blocks are all sound. */
  lemma AcceptedExactly(image: Image, info: Info)
    ensures Accepted(INIT, image, info) <==>
      forall i :: 0 <= i < |image| && IsSignature(image, info, i) ==> Sound(image[i], Base(image, info), info.size)
  {
    hide IsSignature, Sound, Accepts, Enter, Accepted, IsAbsolute;
    assert image[0..] == image && After(image, info, 0) == INIT;
    AcceptedFrom(image, info, 0);
    forall i | 0 <= i < |image|
      ensures Accepts(Enter(After(image, info, i)), image[i], info)
        <==> (IsSignature(image, info, i) ==> Sound(image[i], Base(image, info), info.size))
    {
      AcceptsBlock(image, info, i);
    }
  }
}
