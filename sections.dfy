/** The section tree that `FFXStructureAnalyzer.parseSection` builds, the tag registry,
    and the reader's behaviour as pure functions of the buffer. A section header is a
    4-byte tag and a big-endian 4-byte length; what follows depends on the tag. */
module Sections {
  import opened Wrappers
  import opened Bytes

  /** A 4-byte section type, kept as the raw bytes. */
  type Tag = seq<uint8>

  /** What a section carries besides its header (the source's `value`, `data` and
      `children`, made one tagged value). */
  datatype Payload =
    | Container(form: seq<uint8>, children: seq<Section>)      // RIFX, LIST
    | Text(text: seq<uint8>)                                   // fnam, tdmn, tdsn
    | NoValue                                                  // tdmn, tdsn with length <= 8
    | Record(fields: seq<uint32>)                              // tdsb, tdsl, tdps, parn
    | Scalar(word: uint32)                                     // tdpt, tdpi
    | Tdb4(values: seq<uint32>, trailing: Option<seq<uint8>>)  // tdb4
    | Opaque(data: seq<uint8>)                                 // every other tag

  /** One parsed section: its tag, the offset of the tag (after any zero padding that
      was skipped), its declared length and its payload. */
  datatype Section = Section(tag: Tag, offset: nat, length: uint32, payload: Payload)

  const RifxTag: Tag := [0x52, 0x49, 0x46, 0x58]  // RIFX
  const ListTag: Tag := [0x4C, 0x49, 0x53, 0x54]  // LIST
  const HeadTag: Tag := [0x68, 0x65, 0x61, 0x64]  // head
  const BesoTag: Tag := [0x62, 0x65, 0x73, 0x6F]  // beso
  const TdotTag: Tag := [0x74, 0x64, 0x6F, 0x74]  // tdot
  const TdplTag: Tag := [0x74, 0x64, 0x70, 0x6C]  // tdpl
  const TdixTag: Tag := [0x74, 0x64, 0x69, 0x78]  // tdix
  const TdmnTag: Tag := [0x74, 0x64, 0x6D, 0x6E]  // tdmn
  const TdsnTag: Tag := [0x74, 0x64, 0x73, 0x6E]  // tdsn
  const TdsbTag: Tag := [0x74, 0x64, 0x73, 0x62]  // tdsb
  const TdslTag: Tag := [0x74, 0x64, 0x73, 0x6C]  // tdsl
  const TdptTag: Tag := [0x74, 0x64, 0x70, 0x74]  // tdpt
  const TdpiTag: Tag := [0x74, 0x64, 0x70, 0x69]  // tdpi
  const TdpsTag: Tag := [0x74, 0x64, 0x70, 0x73]  // tdps
  const TdpkTag: Tag := [0x74, 0x64, 0x70, 0x6B]  // tdpk
  const TdgpTag: Tag := [0x74, 0x64, 0x67, 0x70]  // tdgp
  const FsldTag: Tag := [0x46, 0x73, 0x6C, 0x64]  // Fsld
  const TdscTag: Tag := [0x74, 0x64, 0x73, 0x63]  // tdsc
  const TdumTag: Tag := [0x74, 0x64, 0x75, 0x6D]  // tdum
  const TdstTag: Tag := [0x74, 0x64, 0x73, 0x74]  // tdst
  const FnamTag: Tag := [0x66, 0x6E, 0x61, 0x6D]  // fnam
  const PrmmTag: Tag := [0x70, 0x72, 0x6D, 0x6D]  // prmm
  const TdxpTag: Tag := [0x74, 0x64, 0x78, 0x70]  // tdxp
  const TglfTag: Tag := [0x74, 0x67, 0x6C, 0x66]  // tglf
  const TdpfTag: Tag := [0x74, 0x64, 0x70, 0x66]  // tdpf
  const ParnTag: Tag := [0x70, 0x61, 0x72, 0x6E]  // parn
  const Tdb4Tag: Tag := [0x74, 0x64, 0x62, 0x34]  // tdb4
  const ParTTag: Tag := [0x70, 0x61, 0x72, 0x54]  // parT
  const SspcTag: Tag := [0x73, 0x73, 0x70, 0x63]  // sspc

  /** The closed allow-list of section types, in the source's order. */
  const ValidTypes: seq<Tag> := [
    RifxTag, ListTag, HeadTag, BesoTag, TdotTag, TdplTag, TdixTag, TdmnTag, TdsnTag,
    TdsbTag, TdslTag, TdptTag, TdpiTag, TdpsTag, TdpkTag, TdgpTag, FsldTag, TdscTag,
    TdumTag, TdstTag, FnamTag, PrmmTag, TdxpTag, TglfTag, TdpfTag, ParnTag, Tdb4Tag,
    ParTTag, SspcTag
  ]

  /** Maximum declared length the reader accepts. */
  const MaxSectionLength := 10000

  /** `validTypes.includes(tag)`: a front-to-back search of the allow-list. */
  predicate IsValidSectionType(tag: Tag) {
    Includes(ValidTypes, tag)
  }

  /** Linear search for `tag` in `tags`. */
  predicate Includes(tags: seq<Tag>, tag: Tag) {
    |tags| > 0 && (tags[0] == tag || Includes(tags[1..], tag))
  }

  /** The two tags whose payload is a 4-byte form type followed by child sections. */
  predicate IsContainer(tag: Tag) {
    tag == RifxTag || tag == ListTag
  }

  /** The first offset at or after `p` that does not hold a zero byte (`|buf|` when
      only zeros remain, `p` itself when it is already past the end). */
  function SkipZeros(buf: seq<uint8>, p: nat): (q: nat)
    ensures p <= q
    ensures q == p || q <= |buf|
    decreases |buf| - p
  {
    if p < |buf| && buf[p] == 0 then SkipZeros(buf, p + 1) else p
  }

  /** Every byte the zero skip passes over is zero, and it stops at the end of the buffer
      or at a non-zero byte. */
  lemma {:induction false} SkipZerosSkipsZeros(buf: seq<uint8>, p: nat)
    ensures forall i :: p <= i < SkipZeros(buf, p) ==> i < |buf| && buf[i] == 0
    ensures SkipZeros(buf, p) < |buf| ==> buf[SkipZeros(buf, p)] != 0
    decreases |buf| - p
  {
    if p < |buf| && buf[p] == 0 {
      assert SkipZeros(buf, p) == SkipZeros(buf, p + 1);
      SkipZerosSkipsZeros(buf, p + 1);
    } else {
      assert SkipZeros(buf, p) == p;
    }
  }

  /** Where the container loop looks for the next child after a child of declared
      length `length` requested at `at`: eight header bytes past the length, rounded up
      to an even offset. */
  function NextChild(at: nat, length: nat): (next: nat)
    ensures next % 2 == 0
    ensures at + length + 8 <= next <= at + length + 9
  {
    var n := at + length + 8;
    if n % 2 != 0 then n + 1 else n
  }

  /** The section the reader returns when asked for one at `off`, or `None` (the source's
      `null`, which also stands for every exception the reads raise). Zero bytes are
      skipped first; the section is then read at the first non-zero byte. */
  function Parse(buf: seq<uint8>, off: nat): Option<Section>
    decreases |buf| - off, 2
  {
    if off >= |buf| then None else ParseAt(buf, SkipZeros(buf, off))
  }

  /** The header checks at `p`, once the zero padding has been skipped: the tag must be
      readable and allow-listed, the length readable, at most `MaxSectionLength`, and the
      length counted from `p` must stay within the buffer. */
  function ParseAt(buf: seq<uint8>, p: nat): Option<Section>
    decreases |buf| - p, 1
  {
    if p + 4 > |buf| then None
    else
      var tag := buf[p..p + 4];
      if !IsValidSectionType(tag) || p + 8 > |buf| then None
      else
        var length := U32At(buf, p + 4);
        if length > MaxSectionLength || p + length > |buf| then None
        else ParseBody(buf, p, tag, length)
  }

  /** The dispatch on the tag of an accepted header: containers read their form type and
      collect children up to `p + length`; every other tag decodes a leaf payload. */
  function ParseBody(buf: seq<uint8>, p: nat, tag: Tag, length: uint32): Option<Section>
    requires p + 8 <= |buf| && p + length <= |buf|
    decreases |buf| - p, 0
  {
    if IsContainer(tag) then
      if p + 12 > |buf| then None
      else Some(Section(tag, p, length,
                        Container(buf[p + 8..p + 12], ContainerChildren(buf, p + 12, p + length))))
    else
      match DecodeLeaf(buf, tag, p, length)
      case None => None
      case Some(payload) => Some(Section(tag, p, length, payload))
  }

  /** The children a RIFX or LIST section collects: sections parsed from `at` while `at`
      is before `end`, stopping at the first position where no section parses. The next
      position is computed from the requested position `at`, not from the child's
      recorded offset. */
  function ContainerChildren(buf: seq<uint8>, at: nat, end: nat): seq<Section>
    requires end <= |buf|
    decreases |buf| - at, 3
  {
    if at >= end then []
    else
      match Parse(buf, at)
      case None => []
      case Some(child) => [child] + ContainerChildren(buf, NextChild(at, child.length), end)
  }

  /** The tags whose payload is text with trailing NUL bytes removed. */
  predicate IsTextTag(tag: Tag) {
    tag == FnamTag || tag == TdmnTag || tag == TdsnTag
  }

  /** The tags whose payload is one bare word. */
  predicate IsScalarTag(tag: Tag) {
    tag == TdptTag || tag == TdpiTag
  }

  /** How many words the record tags read (tdsb: propertyType, value, flags; tdsl:
      defaultValue, minValue, maxValue, precision; tdps: type, flags; parn: count);
      zero for every other tag. */
  function RecordArity(tag: Tag): nat {
    if tag == TdsbTag then 3
    else if tag == TdslTag then 4
    else if tag == TdpsTag then 2
    else if tag == ParnTag then 1
    else 0
  }

  /** The payload of a non-container section whose header (tag at `p`, declared length
      `length`) has been accepted, or `None` when a read overflows the buffer. The
      explicitly opaque tags (prmm, tdxp, tglf, tdpf) and every tag without an arm of its
      own take the same opaque span. */
  function DecodeLeaf(buf: seq<uint8>, tag: Tag, p: nat, length: uint32): Option<Payload>
    requires p + 8 <= |buf| && p + length <= |buf|
  {
    if IsTextTag(tag) then Some(DecodeText(buf, tag, p, length))
    else if RecordArity(tag) > 0 then RecordAt(buf, p + 8, RecordArity(tag))
    else if IsScalarTag(tag) then
      if p + 12 <= |buf| then Some(Scalar(U32At(buf, p + 8))) else None
    else if tag == Tdb4Tag then DecodeTdb4(buf, p, length)
    else Some(Opaque(Slice(buf, p + 8, p + length)))
  }

  /** fnam takes the span from the end of the header to `p + length` (empty when the
      length is below 8); tdmn and tdsn read `length - 8` bytes when that is positive and
      carry no value otherwise. Trailing NUL bytes are removed. */
  function DecodeText(buf: seq<uint8>, tag: Tag, p: nat, length: uint32): Payload
    requires p + 8 <= |buf| && p + length <= |buf|
  {
    if tag == FnamTag then Text(StripTrailingNul(Slice(buf, p + 8, p + length)))
    else if length > 8 then Text(StripTrailingNul(buf[p + 8..p + length]))
    else NoValue
  }

  /** `n` words read at `q` as a record, or `None` when the reads run past the buffer.
      The declared length is not consulted. */
  function RecordAt(buf: seq<uint8>, q: nat, n: nat): Option<Payload>
  {
    if q + 4 * n <= |buf| then Some(Record(Words(buf, q, n))) else None
  }

  /** tdb4: four words, four more when the declared length exceeds 16, then whatever
      lies between the cursor and `p + length`, if anything does. */
  function DecodeTdb4(buf: seq<uint8>, p: nat, length: uint32): Option<Payload>
    requires p + 8 <= |buf| && p + length <= |buf|
  {
    var n := if length > 16 then 8 else 4;
    var q := p + 8 + 4 * n;
    if q > |buf| then None
    else Some(Tdb4(Words(buf, p + 8, n), if q < p + length then Some(Slice(buf, q, p + length)) else None))
  }

  /** What the unused `parseChildren(start, length)` helper collects: sections parsed
      from `at` while `at` is before `end` and a header still fits, stopping at the first
      failure, advancing by the child's length plus eight with no padding. */
  function ScannedChildren(buf: seq<uint8>, at: nat, end: nat): seq<Section>
    decreases end - at
  {
    if at >= end || at + 8 > |buf| then []
    else
      match Parse(buf, at)
      case None => []
      case Some(child) => [child] + ScannedChildren(buf, at + child.length + 8, end)
  }

  /** The container loop ends at `end` and at the first position where no section is
      found. */
  lemma ContainerChildrenStop(buf: seq<uint8>, start: nat, at: nat, end: nat, children: seq<Section>)
    requires end <= |buf| && (at >= end || Parse(buf, at).None?)
    requires children + ContainerChildren(buf, at, end) == ContainerChildren(buf, start, end)
    ensures children == ContainerChildren(buf, start, end)
  {
    assert ContainerChildren(buf, at, end) == [];
  }

  /** One step of the `parseChildren` walk, in the manner of `ContainerChildrenStep`. */
  lemma ScannedChildrenStep(buf: seq<uint8>, start: nat, at: nat, end: nat, children: seq<Section>)
    requires at < end && at + 8 <= |buf| && Parse(buf, at).Some?
    requires children + ScannedChildren(buf, at, end) == ScannedChildren(buf, start, end)
    ensures var c := Parse(buf, at).value;
      (children + [c]) + ScannedChildren(buf, at + c.length + 8, end)
      == ScannedChildren(buf, start, end)
  {
    var c := Parse(buf, at).value;
    assert ScannedChildren(buf, at, end) == [c] + ScannedChildren(buf, at + c.length + 8, end);
    AppendAssoc(children, [c], ScannedChildren(buf, at + c.length + 8, end));
  }

  /** One step of the container loop: when `children` followed by the children from `at`
      are all the children from `start`, and a section is found at `at`, then `children`
      with that section appended, followed by the children from the next position, are
      still all of them. */
  lemma ContainerChildrenStep(buf: seq<uint8>, start: nat, at: nat, end: nat, children: seq<Section>)
    requires end <= |buf| && at < end && Parse(buf, at).Some?
    requires children + ContainerChildren(buf, at, end) == ContainerChildren(buf, start, end)
    ensures var c := Parse(buf, at).value;
      (children + [c]) + ContainerChildren(buf, NextChild(at, c.length), end)
      == ContainerChildren(buf, start, end)
  {
    var c := Parse(buf, at).value;
    assert ContainerChildren(buf, at, end) == [c] + ContainerChildren(buf, NextChild(at, c.length), end);
    AppendAssoc(children, [c], ContainerChildren(buf, NextChild(at, c.length), end));
  }

  /** Appending is associative. */
  lemma AppendAssoc<T>(a: seq<T>, b: seq<T>, c: seq<T>)
    ensures (a + b) + c == a + (b + c)
  {
  }
}
