/** What the section reader promises, stated over the functions of module `Sections`
    (which the methods of `Analyzer.StructureAnalyzer` are proved to compute). */
module Properties {
  import opened Wrappers
  import opened Bytes
  import opened Sections

  // ---------------------------------------------------------------------------------
  // The allow-list and the zero skip

  /** The front-to-back search accepts exactly the tags on the list. */
  lemma {:induction false} IncludesIsMembership(tags: seq<Tag>, tag: Tag)
    ensures Includes(tags, tag) <==> tag in tags
    decreases |tags|
  {
    if |tags| > 0 {
      IncludesIsMembership(tags[1..], tag);
      assert tags == [tags[0]] + tags[1..];
    }
  }

  /** A tag is accepted exactly when it is one of the 29 on the list. */
  lemma ValidSectionTypes(tag: Tag)
    ensures IsValidSectionType(tag) <==> tag in ValidTypes
    ensures |ValidTypes| == 29
  {
    IncludesIsMembership(ValidTypes, tag);
  }

  /** Every tag on the list is accepted. */
  lemma AllowListed(k: nat)
    requires k < |ValidTypes|
    ensures IsValidSectionType(ValidTypes[k])
  {
    IncludesIsMembership(ValidTypes, ValidTypes[k]);
  }

  /** The zero skip stops at `q` whenever only zeros lie between `p` and `q` and `q` is
      the end of the buffer or a non-zero byte. */
  lemma {:induction false} SkipZerosLands(buf: seq<uint8>, p: nat, q: nat)
    requires p <= q <= |buf|
    requires forall i :: p <= i < q ==> buf[i] == 0
    requires q == |buf| || buf[q] != 0
    ensures SkipZeros(buf, p) == q
    decreases q - p
  {
    if p < q {
      SkipZerosLands(buf, p + 1, q);
    }
  }

  /** Asking further into the buffer never finds an earlier section start. */
  lemma SkipZerosMonotone(buf: seq<uint8>, a: nat, b: nat)
    requires a <= b
    ensures SkipZeros(buf, a) <= SkipZeros(buf, b)
  {
    var qa := SkipZeros(buf, a);
    SkipZerosSkipsZeros(buf, a);
    if b <= qa && qa <= |buf| {
      SkipZerosLands(buf, b, qa);
    }
  }

  // ---------------------------------------------------------------------------------
  // When the reader returns null

  /** The header at `p` passes every check: the tag and the length can be read, the tag
      is allow-listed, the length is at most `MaxSectionLength` and `p + length` is
      within the buffer. */
  predicate HeaderAccepted(buf: seq<uint8>, p: nat) {
    p + 8 <= |buf| && IsValidSectionType(buf[p..p + 4])
    && U32At(buf, p + 4) <= MaxSectionLength && p + U32At(buf, p + 4) <= |buf|
  }

  /** How many bytes after the 8-byte header a section's arm reads through the cursor
      (spans taken with `slice` are clamped and never fail, so they count as none). */
  function CursorReads(tag: Tag, length: nat): nat {
    if IsContainer(tag) then 4
    else if IsTextTag(tag) then 0
    else if RecordArity(tag) > 0 then 4 * RecordArity(tag)
    else if IsScalarTag(tag) then 4
    else if tag == Tdb4Tag then if length > 16 then 32 else 16
    else 0
  }

  /** Reading at a position holding no zero byte is checking the header there and
      dispatching on its tag. */
  lemma ParseAtUnfold(buf: seq<uint8>, p: nat)
    ensures ParseAt(buf, p) ==
      if !HeaderAccepted(buf, p) then None
      else ParseBody(buf, p, buf[p..p + 4], U32At(buf, p + 4))
  {
  }

  /** Reading at `off` is reading at the first non-zero byte, checking the header there
      and dispatching on its tag. */
  lemma ParseUnfold(buf: seq<uint8>, off: nat)
    ensures off < |buf| ==> SkipZeros(buf, off) <= |buf|
    ensures Parse(buf, off) ==
      if off >= |buf| || !HeaderAccepted(buf, SkipZeros(buf, off)) then None
      else
        var p := SkipZeros(buf, off);
        ParseBody(buf, p, buf[p..p + 4], U32At(buf, p + 4))
  {
    if off < |buf| {
      var p := SkipZeros(buf, off);
      assert Parse(buf, off) == ParseAt(buf, p);
      ParseAtUnfold(buf, p);
    }
  }

  /** The reader never fails with an error: it returns null exactly when the offset is
      past the end, when the header at the first non-zero byte is rejected or cannot be
      read (which covers a buffer with only zeros left), or when the arm's own reads
      would run past the buffer. */
  lemma ParseFailsExactlyWhen(buf: seq<uint8>, off: nat)
    ensures Parse(buf, off).None? <==>
      off >= |buf|
      || !HeaderAccepted(buf, SkipZeros(buf, off))
      || SkipZeros(buf, off) + 8
         + CursorReads(buf[SkipZeros(buf, off)..SkipZeros(buf, off) + 4],
                       U32At(buf, SkipZeros(buf, off) + 4)) > |buf|
  {
    ParseUnfold(buf, off);
  }

  /** Only zero bytes from `off` on: no section. */
  lemma ParseOnlyZeros(buf: seq<uint8>, off: nat)
    requires forall i :: off <= i < |buf| ==> buf[i] == 0
    ensures Parse(buf, off) == None
  {
    if off <= |buf| {
      SkipZerosLands(buf, off, |buf|);
    }
    ParseUnfold(buf, off);
  }

  /** A buffer of zeros holds no section. */
  lemma ParseAllZeroBuffer(buf: seq<uint8>)
    requires forall i :: 0 <= i < |buf| ==> buf[i] == 0
    ensures Parse(buf, 0) == None
  {
    ParseOnlyZeros(buf, 0);
  }

  // ---------------------------------------------------------------------------------
  // What a returned section looks like

  /** What the tag switch builds once a header at `p` is accepted: a section at `p` with
      that tag and length whose payload, for RIFX and LIST exactly, is a container (form
      type the four bytes after the header, children collected from `p + 12` up to, but
      not including, `p + length`) and for every other tag the leaf decoder's result. */
  lemma ParseBodyPayload(buf: seq<uint8>, p: nat, tag: Tag, length: uint32)
    requires p + 8 <= |buf| && p + length <= |buf|
    requires ParseBody(buf, p, tag, length).Some?
    ensures var s := ParseBody(buf, p, tag, length).value;
      && s.tag == tag && s.offset == p && s.length == length
      && (s.payload.Container? <==> IsContainer(tag))
      && (IsContainer(tag) ==>
            p + 12 <= |buf|
            && s.payload == Container(buf[p + 8..p + 12], ContainerChildren(buf, p + 12, p + length)))
      && (!IsContainer(tag) ==> DecodeLeaf(buf, tag, p, length) == Some(s.payload))
  {
    if !IsContainer(tag) {
      var d := DecodeLeaf(buf, tag, p, length);
      assert d.Some? ==> !d.value.Container?;
    }
  }

  /** A section read at `p` has the tag and length found there and starts at `p`. */
  lemma ParseAtHeader(buf: seq<uint8>, p: nat)
    requires ParseAt(buf, p).Some?
    ensures HeaderAccepted(buf, p)
    ensures var s := ParseAt(buf, p).value;
      s.tag == buf[p..p + 4] && s.offset == p && s.length == U32At(buf, p + 4)
  {
    ParseAtUnfold(buf, p);
    ParseBodyPayload(buf, p, buf[p..p + 4], U32At(buf, p + 4));
  }

  /** A returned section sits at the first non-zero byte at or after the requested offset;
      its tag is the four bytes there and is on the allow-list; its length is the
      big-endian word that follows, at most `MaxSectionLength`, and `offset + length`
      does not pass the end of the buffer. */
  lemma ParsedSectionHeader(buf: seq<uint8>, off: nat)
    requires Parse(buf, off).Some?
    ensures var s := Parse(buf, off).value;
      && s.offset == SkipZeros(buf, off)
      && off <= s.offset && s.offset + 8 <= |buf| && buf[s.offset] != 0
      && (forall i :: off <= i < s.offset ==> buf[i] == 0)
      && s.tag == buf[s.offset..s.offset + 4] && IsValidSectionType(s.tag)
      && s.length == U32At(buf, s.offset + 4)
      && s.length <= MaxSectionLength && s.offset + s.length <= |buf|
  {
    var p := SkipZeros(buf, off);
    assert Parse(buf, off) == ParseAt(buf, p);
    ParseAtHeader(buf, p);
    SkipZerosSkipsZeros(buf, off);
  }

  /** `ParseBodyPayload` for a section returned at `off`. */
  lemma ParsedSectionPayload(buf: seq<uint8>, off: nat)
    requires Parse(buf, off).Some?
    ensures var s := Parse(buf, off).value;
      && s.offset + 8 <= |buf| && s.offset + s.length <= |buf|
      && (s.payload.Container? <==> IsContainer(s.tag))
      && (IsContainer(s.tag) ==>
            s.offset + 12 <= |buf|
            && s.payload == Container(buf[s.offset + 8..s.offset + 12],
                                      ContainerChildren(buf, s.offset + 12, s.offset + s.length)))
      && (!IsContainer(s.tag) ==> DecodeLeaf(buf, s.tag, s.offset, s.length) == Some(s.payload))
  {
    var p := SkipZeros(buf, off);
    assert Parse(buf, off) == ParseAt(buf, p);
    ParseAtUnfold(buf, p);
    ParseBodyPayload(buf, p, buf[p..p + 4], U32At(buf, p + 4));
  }

  /** The loop bound is `offset + length`, which the first child position `offset + 12`
      already reaches when the length is at most 12: such a container has no children. */
  lemma ShortContainerHasNoChildren(buf: seq<uint8>, off: nat)
    requires Parse(buf, off).Some?
    requires IsContainer(Parse(buf, off).value.tag) && Parse(buf, off).value.length <= 12
    ensures Parse(buf, off).value.payload.Container?
    ensures Parse(buf, off).value.payload.children == []
  {
    ParsedSectionPayload(buf, off);
  }

  /** Each of `cs` is at or after `lo`, has an accepted tag and ends within the buffer. */
  predicate WellPlaced(buf: seq<uint8>, cs: seq<Section>, lo: nat) {
    forall i :: 0 <= i < |cs| ==>
      lo <= cs[i].offset && IsValidSectionType(cs[i].tag) && cs[i].offset + cs[i].length <= |buf|
  }

  /** The offsets of `cs` never decrease. */
  predicate InBufferOrder(cs: seq<Section>) {
    forall i, j :: 0 <= i < j < |cs| ==> cs[i].offset <= cs[j].offset
  }

  lemma PrependKeepsOrder(buf: seq<uint8>, c: Section, rest: seq<Section>, lo: nat, lo': nat)
    requires lo <= c.offset <= lo'
    requires IsValidSectionType(c.tag) && c.offset + c.length <= |buf|
    requires WellPlaced(buf, rest, lo') && InBufferOrder(rest)
    ensures WellPlaced(buf, [c] + rest, lo) && InBufferOrder([c] + rest)
  {
    var cs := [c] + rest;
    forall i | 0 < i < |cs|
      ensures cs[i] == rest[i - 1]
    {
    }
  }

  /** Every child is found at or after the first position the container asked for, carries
      an allow-listed tag and ends within the buffer, and the children come in buffer
      order: their offsets never decrease. (They can repeat: see `RevisitedChild`.) */
  lemma {:induction false} ContainerChildrenInOrder(buf: seq<uint8>, at: nat, end: nat)
    requires end <= |buf|
    ensures WellPlaced(buf, ContainerChildren(buf, at, end), SkipZeros(buf, at))
    ensures InBufferOrder(ContainerChildren(buf, at, end))
    decreases |buf| - at
  {
    if at < end && Parse(buf, at).Some? {
      var c := Parse(buf, at).value;
      var next := NextChild(at, c.length);
      ParsedSectionHeader(buf, at);
      ContainerChildrenInOrder(buf, next, end);
      SkipZerosMonotone(buf, at, next);
      assert ContainerChildren(buf, at, end) == [c] + ContainerChildren(buf, next, end);
      PrependKeepsOrder(buf, c, ContainerChildren(buf, next, end), SkipZeros(buf, at), SkipZeros(buf, next));
    }
  }

  /** Reading again at the offset where a section was found yields the same section. */
  lemma ReparseAtOwnOffset(buf: seq<uint8>, off: nat)
    requires Parse(buf, off).Some?
    ensures Parse(buf, Parse(buf, off).value.offset) == Parse(buf, off)
  {
    var p := Parse(buf, off).value.offset;
    ParsedSectionHeader(buf, off);
    SkipZerosLands(buf, p, p);
    assert Parse(buf, off) == ParseAt(buf, p);
    assert Parse(buf, p) == ParseAt(buf, p);
  }

  /** Every child is a section in its own right: reading at its offset yields it. */
  lemma {:induction false} ChildrenReparse(buf: seq<uint8>, at: nat, end: nat)
    requires end <= |buf|
    ensures forall c :: c in ContainerChildren(buf, at, end) ==> Parse(buf, c.offset) == Some(c)
    decreases |buf| - at
  {
    if at < end && Parse(buf, at).Some? {
      var c := Parse(buf, at).value;
      var next := NextChild(at, c.length);
      ReparseAtOwnOffset(buf, at);
      ChildrenReparse(buf, next, end);
      assert ContainerChildren(buf, at, end) == [c] + ContainerChildren(buf, next, end);
    }
  }

  /** The next child position is computed from the position the loop asked for, not from
      where the child was found: when zero padding makes the two differ by exactly the
      child's step, the loop asks at the child's own offset next and collects the same
      section twice. */
  lemma RevisitedChild(buf: seq<uint8>, at: nat, end: nat)
    requires end <= |buf| && at < end && Parse(buf, at).Some?
    requires NextChild(at, Parse(buf, at).value.length) == Parse(buf, at).value.offset < end
    ensures var cs := ContainerChildren(buf, at, end);
      |cs| >= 2 && cs[0] == cs[1] == Parse(buf, at).value
  {
    var c := Parse(buf, at).value;
    ReparseAtOwnOffset(buf, at);
    assert ContainerChildren(buf, at, end) == [c] + ContainerChildren(buf, c.offset, end);
    assert ContainerChildren(buf, c.offset, end)
           == [c] + ContainerChildren(buf, NextChild(c.offset, c.length), end);
  }

  // ---------------------------------------------------------------------------------
  // Leaf payloads

  /** The tags that fall to an opaque span: prmm, tdxp, tglf, tdpf and every allow-listed
      tag without an arm of its own. */
  predicate IsOpaqueTag(tag: Tag) {
    !IsContainer(tag) && !IsTextTag(tag) && RecordArity(tag) == 0 && !IsScalarTag(tag)
    && tag != Tdb4Tag
  }

  /** An opaque leaf never fails and stores the bytes from the end of its header to
      `p + length` verbatim, which is nothing when the length is below 8. */
  lemma OpaqueLeafIsVerbatim(buf: seq<uint8>, tag: Tag, p: nat, length: uint32)
    requires p + 8 <= |buf| && p + length <= |buf| && IsOpaqueTag(tag)
    ensures var data := if 8 < length then buf[p + 8..p + length] else [];
      && DecodeLeaf(buf, tag, p, length) == Some(Opaque(data))
      && |data| == (if 8 < length then length - 8 else 0)
  {
  }

  /** Text leaves never fail. tdmn and tdsn carry the `length - 8` bytes after the header,
      less trailing NULs, when `length > 8`, and no value otherwise; fnam carries the span
      from the end of the header to `p + length`, less trailing NULs. */
  lemma TextLeaf(buf: seq<uint8>, tag: Tag, p: nat, length: uint32)
    requires p + 8 <= |buf| && p + length <= |buf| && IsTextTag(tag)
    ensures var span := if 8 < length then buf[p + 8..p + length] else [];
      DecodeLeaf(buf, tag, p, length) ==
        if tag == FnamTag || length > 8 then Some(Text(StripTrailingNul(span))) else Some(NoValue)
  {
  }

  /** Text leaves never overflow: an accepted header with a text tag always yields a
      section. */
  lemma TextLeavesNeverOverflow(buf: seq<uint8>, off: nat)
    requires off < |buf| && HeaderAccepted(buf, SkipZeros(buf, off))
    requires IsTextTag(buf[SkipZeros(buf, off)..SkipZeros(buf, off) + 4])
    ensures Parse(buf, off).Some?
  {
    ParseFailsExactlyWhen(buf, off);
  }

  /** tdsb, tdsl, tdps and parn carry 3, 4, 2 and 1 consecutive big-endian words read
      from the end of the header, whatever their declared length, and fail exactly when
      those words run past the buffer. */
  lemma RecordLeaf(buf: seq<uint8>, tag: Tag, p: nat, length: uint32)
    requires p + 8 <= |buf| && p + length <= |buf| && !IsContainer(tag) && RecordArity(tag) > 0
    ensures var r := DecodeLeaf(buf, tag, p, length);
      && (r.Some? <==> p + 8 + 4 * RecordArity(tag) <= |buf|)
      && (r.Some? ==>
            && r.value.Record? && |r.value.fields| == RecordArity(tag)
            && forall i :: 0 <= i < RecordArity(tag) ==>
                 r.value.fields[i] == U32At(buf, p + 8 + 4 * i))
  {
  }

  /** tdpt and tdpi carry the one big-endian word after the header and fail exactly when
      it runs past the buffer. */
  lemma ScalarLeaf(buf: seq<uint8>, tag: Tag, p: nat, length: uint32)
    requires p + 8 <= |buf| && p + length <= |buf| && IsScalarTag(tag)
    ensures DecodeLeaf(buf, tag, p, length) ==
      if p + 12 <= |buf| then Some(Scalar(U32At(buf, p + 8))) else None
  {
  }

  /** tdb4 carries four words, eight exactly when its length exceeds 16, and fails exactly
      when they run past the buffer; it has trailing data exactly when the words end before
      `p + length`, and that data is the rest of the span. A length of at most 40
      therefore never yields trailing data. */
  lemma Tdb4Leaf(buf: seq<uint8>, p: nat, length: uint32)
    requires p + 8 <= |buf| && p + length <= |buf|
    ensures var r := DecodeLeaf(buf, Tdb4Tag, p, length);
      var n := if length > 16 then 8 else 4;
      && (r.Some? <==> p + 8 + 4 * n <= |buf|)
      && (r.Some? ==>
            && r.value.Tdb4? && |r.value.values| == n
            && (forall i :: 0 <= i < n ==> r.value.values[i] == U32At(buf, p + 8 + 4 * i))
            && (r.value.trailing.Some? <==> 8 + 4 * n < length)
            && (r.value.trailing.Some? ==> r.value.trailing.value == buf[p + 8 + 4 * n..p + length])
            && (length <= 40 ==> r.value.trailing == None))
  {
  }

  // ---------------------------------------------------------------------------------
  // The two child walks

  /** The unused `parseChildren` helper and the container loop collect the same children
      when the walk starts at an even position and every child has an even length, so
      that the container loop never pads: its extra header-fits check only stops a walk
      that the allow-list check would stop anyway. */
  lemma {:induction false} WalksAgreeWithoutPadding(buf: seq<uint8>, at: nat, end: nat)
    requires end <= |buf| && at % 2 == 0
    requires forall c :: c in ContainerChildren(buf, at, end) ==> c.length % 2 == 0
    ensures ScannedChildren(buf, at, end) == ContainerChildren(buf, at, end)
    decreases |buf| - at
  {
    if at < end {
      if at + 8 > |buf| {
        ParseUnfold(buf, at);
      } else if Parse(buf, at).Some? {
        var c := Parse(buf, at).value;
        assert ContainerChildren(buf, at, end)
               == [c] + ContainerChildren(buf, NextChild(at, c.length), end);
        assert c in ContainerChildren(buf, at, end);
        assert NextChild(at, c.length) == at + c.length + 8;
        WalksAgreeWithoutPadding(buf, at + c.length + 8, end);
      }
    }
  }
}
