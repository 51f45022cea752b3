/** Concrete buffers and what the reader makes of them. Each buffer is given byte by byte
    by a function of the index. */
module Scenarios {
  import opened Wrappers
  import opened Bytes
  import opened Sections
  import Properties

  /** The form type of an FFX file. */
  const FafxForm: seq<uint8> := [0x46, 0x61, 0x46, 0x58]  // FaFX

  /** `head` has no arm of its own in the tag switch. */
  lemma HeadIsOpaque()
    ensures Properties.IsOpaqueTag(HeadTag)
  {
  }

  /** `RIFX`, length 12, form type `FaFX`, then a `head` section of length 4 whose
      four data bytes hold 1. */
  function BoundByte(i: int): uint8 {
    if 0 <= i < 4 then RifxTag[i]
    else if i == 7 then 12
    else if 8 <= i < 12 then FafxForm[i - 8]
    else if 12 <= i < 16 then HeadTag[i - 12]
    else if i == 19 then 4
    else if i == 23 then 1
    else 0
  }

  const BoundBuffer: seq<uint8> := seq(24, i => BoundByte(i))

  /** The container's loop bound `offset + length` equals the first child position, so
      the `head` section that follows is not collected as a child. */
  lemma ContainerBoundExample()
    ensures Parse(BoundBuffer, 0) == Some(Section(RifxTag, 0, 12, Container(FafxForm, [])))
  {
    var buf := BoundBuffer;
    assert |buf| == 24 && forall i :: 0 <= i < 24 ==> buf[i] == BoundByte(i);
    assert buf[0..4] == RifxTag && buf[8..12] == FafxForm;
    assert U32At(buf, 4) == 12;
    Properties.AllowListed(0);
    assert ValidTypes[0] == RifxTag;
    assert Parse(buf, 0) == ParseAt(buf, 0);
    Properties.ParseAtUnfold(buf, 0);
    assert ContainerChildren(buf, 12, 12) == [];
  }

  /** The `head` section after that container is a section of its own at offset 12; its
      length 4 is below the header size, so it carries no data. */
  lemma SectionAfterContainerExample()
    ensures Parse(BoundBuffer, 12) == Some(Section(HeadTag, 12, 4, Opaque([])))
  {
    var buf := BoundBuffer;
    assert |buf| == 24 && forall i :: 0 <= i < 24 ==> buf[i] == BoundByte(i);
    assert buf[12..16] == HeadTag;
    assert U32At(buf, 16) == 4;
    Properties.AllowListed(2);
    assert ValidTypes[2] == HeadTag;
    Properties.SkipZerosLands(buf, 12, 12);
    assert Parse(buf, 12) == ParseAt(buf, 12);
    Properties.ParseAtUnfold(buf, 12);
    HeadIsOpaque();
    Properties.OpaqueLeafIsVerbatim(buf, HeadTag, 12, 4);
  }

  /** `RIFX`, length 28, form type `FaFX`, eight bytes of zero padding, then a `head`
      section of length 0 at offset 20. */
  function PaddedByte(i: int): uint8 {
    if 0 <= i < 4 then RifxTag[i]
    else if i == 7 then 28
    else if 8 <= i < 12 then FafxForm[i - 8]
    else if 20 <= i < 24 then HeadTag[i - 20]
    else 0
  }

  const PaddedBuffer: seq<uint8> := seq(28, i => PaddedByte(i))

  /** The `head` section of `PaddedBuffer`. */
  const PaddedHead := Section(HeadTag, 20, 0, Opaque([]))

  /** Asked for at 12, past the form type, the reader skips the padding and finds the
      `head` section at 20. */
  lemma PaddedHeadFound()
    ensures Parse(PaddedBuffer, 12) == Some(PaddedHead)
  {
    var buf := PaddedBuffer;
    assert |buf| == 28 && forall i :: 0 <= i < 28 ==> buf[i] == PaddedByte(i);
    assert buf[20..24] == HeadTag;
    assert U32At(buf, 24) == 0;
    Properties.AllowListed(2);
    assert ValidTypes[2] == HeadTag;
    assert forall i :: 12 <= i < 20 ==> PaddedByte(i) == 0;
    Properties.SkipZerosLands(buf, 12, 20);
    assert Parse(buf, 12) == ParseAt(buf, 20);
    Properties.ParseAtUnfold(buf, 20);
    HeadIsOpaque();
    Properties.OpaqueLeafIsVerbatim(buf, HeadTag, 20, 0);
  }

  /** The child loop of `PaddedBuffer`'s container asks at 12, finds `head` at 20, asks
      next at 12 + 0 + 8 = 20 and finds it again. */
  lemma PaddedChildren()
    ensures ContainerChildren(PaddedBuffer, 12, 28) == [PaddedHead, PaddedHead]
  {
    var buf := PaddedBuffer;
    PaddedHeadFound();
    Properties.ReparseAtOwnOffset(buf, 12);
    assert ContainerChildren(buf, 12, 28) == [PaddedHead] + ContainerChildren(buf, 20, 28);
    assert ContainerChildren(buf, 20, 28) == [PaddedHead] + ContainerChildren(buf, 28, 28);
  }

  /** The container of `PaddedBuffer` therefore lists its one `head` section twice. */
  lemma RepeatedChildExample()
    ensures Parse(PaddedBuffer, 0)
            == Some(Section(RifxTag, 0, 28, Container(FafxForm, [PaddedHead, PaddedHead])))
  {
    var buf := PaddedBuffer;
    assert |buf| == 28 && forall i :: 0 <= i < 28 ==> buf[i] == PaddedByte(i);
    assert buf[0..4] == RifxTag && buf[8..12] == FafxForm;
    assert U32At(buf, 4) == 28;
    Properties.AllowListed(0);
    assert ValidTypes[0] == RifxTag;
    assert Parse(buf, 0) == ParseAt(buf, 0);
    Properties.ParseAtUnfold(buf, 0);
    PaddedChildren();
    Properties.ParseBodyPayload(buf, 0, RifxTag, 28);
  }

  /** `tdsl` with a declared length of 0, followed by the words 1, 2, 3 and 4. */
  function RecordByte(i: int): uint8 {
    if 0 <= i < 4 then TdslTag[i]
    else if i == 11 || i == 15 || i == 19 || i == 23 then (i - 7) / 4
    else 0
  }

  const RecordBuffer: seq<uint8> := seq(24, i => RecordByte(i))

  /** A fixed-field leaf reads its words whatever its declared length says. */
  lemma RecordIgnoresLengthExample()
    ensures Parse(RecordBuffer, 0) == Some(Section(TdslTag, 0, 0, Record([1, 2, 3, 4])))
  {
    var buf := RecordBuffer;
    assert |buf| == 24 && forall i :: 0 <= i < 24 ==> buf[i] == RecordByte(i);
    assert buf[0..4] == TdslTag;
    assert U32At(buf, 4) == 0;
    Properties.AllowListed(10);
    assert ValidTypes[10] == TdslTag;
    assert Parse(buf, 0) == ParseAt(buf, 0);
    Properties.ParseAtUnfold(buf, 0);
    Properties.RecordLeaf(buf, TdslTag, 0, 0);
    RecordWords();
  }

  /** The four words after the header of `RecordBuffer`. */
  lemma RecordWords()
    ensures |RecordBuffer| == 24 && Words(RecordBuffer, 8, 4) == [1, 2, 3, 4]
  {
    var buf := RecordBuffer;
    assert |buf| == 24 && forall i :: 0 <= i < 24 ==> buf[i] == RecordByte(i);
    assert U32At(buf, 8) == 1 && U32At(buf, 12) == 2 && U32At(buf, 16) == 3 && U32At(buf, 20) == 4;
  }

  /** `tdps` with a declared length of 8 but only the first of its two words. */
  function TruncatedByte(i: int): uint8 {
    if 0 <= i < 4 then TdpsTag[i] else if i == 7 then 8 else if i == 11 then 1 else 0
  }

  const TruncatedBuffer: seq<uint8> := seq(12, i => TruncatedByte(i))

  /** A read past the end of the buffer makes the whole section unreadable. */
  lemma OverflowExample()
    ensures Parse(TruncatedBuffer, 0) == None
  {
    var buf := TruncatedBuffer;
    TruncatedHeader();
    Properties.AllowListed(13);
    assert ValidTypes[13] == TdpsTag;
    assert ParseBody(buf, 0, TdpsTag, 8) == None by {
      Properties.RecordLeaf(buf, TdpsTag, 0, 8);
    }
    assert Parse(buf, 0) == ParseAt(buf, 0);
    Properties.ParseAtUnfold(buf, 0);
  }

  /** The header of `TruncatedBuffer`. */
  lemma TruncatedHeader()
    ensures |TruncatedBuffer| == 12 && TruncatedBuffer[0] != 0
    ensures TruncatedBuffer[0..4] == TdpsTag && U32At(TruncatedBuffer, 4) == 8
  {
    var buf := TruncatedBuffer;
    assert |buf| == 12 && forall i :: 0 <= i < 12 ==> buf[i] == TruncatedByte(i);
  }
}
