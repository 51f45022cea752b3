/** `FFXStructureAnalyzer`: a byte buffer with a read cursor. The two read primitives
    advance the cursor; `ParseSection` resets it, skips zero padding, reads a header and
    dispatches on the tag, recursing for container children. Every method is proved to
    compute the matching function of module `Sections`. */
module Analyzer {
  import opened Wrappers
  import opened Bytes
  import opened Sections

  class StructureAnalyzer {
    const buffer: array<uint8>
    var position: nat

    constructor (buffer: array<uint8>)
      ensures this.buffer == buffer && position == 0
    {
      this.buffer := buffer;
      position := 0;
    }

    /** The next `n` bytes, or `None` (an overflow error) when fewer than `n` remain;
        on success the cursor moves past them. */
    method ReadString(n: nat) returns (r: Option<seq<uint8>>)
      modifies this
      ensures unchanged(buffer)
      ensures r.None? <==> old(position) + n > buffer.Length
      ensures r.None? ==> position == old(position)
      ensures r.Some? ==> r.value == buffer[old(position)..old(position) + n]
                          && position == old(position) + n
    {
      if position + n > buffer.Length {
        return None;
      }
      r := Some(buffer[position..position + n]);
      position := position + n;
    }

    /** The big-endian word at the cursor, or `None` when fewer than four bytes remain;
        on success the cursor moves four bytes on. */
    method ReadUInt32() returns (r: Option<uint32>)
      modifies this
      ensures unchanged(buffer)
      ensures r.None? <==> old(position) + 4 > buffer.Length
      ensures r.None? ==> position == old(position)
      ensures r.Some? ==> r.value == U32At(buffer[..], old(position))
                          && position == old(position) + 4
    {
      if position + 4 > buffer.Length {
        return None;
      }
      r := Some(buffer[position] as int * 0x100_0000 + buffer[position + 1] as int * 0x1_0000
                + buffer[position + 2] as int * 0x100 + buffer[position + 3] as int);
      position := position + 4;
    }

    /** The section at `offset` (after skipping zero bytes), or `None`. Where the cursor
        ends up is left unspecified: a nested call moves it, and no caller reads it. */
    method ParseSection(offset: nat) returns (r: Option<Section>)
      modifies this
      ensures unchanged(buffer)
      ensures r == Parse(buffer[..], offset)
      decreases buffer.Length - offset, 2
    {
      ghost var buf := buffer[..];
      position := offset;
      if position >= buffer.Length {
        return None;
      }
      SkipZeroBytes();
      var at := position;
      assert Parse(buf, offset) == ParseAt(buf, at);
      var tag :- ReadString(4);
      if !IsValidSectionType(tag) {
        return None;
      }
      var length :- ReadUInt32();
      if length > MaxSectionLength || at + length > buffer.Length {
        return None;
      }
      assert ParseAt(buf, at) == ParseBody(buf, at, tag, length);
      r := ParseSectionBody(tag, at, length);
    }

    /** The zero-padding loop of `parseSection`: the cursor moves past zero bytes until
        the end of the buffer or a non-zero byte. (`parseSection` also advances its
        `offset` in step, so that afterwards `offset` is the new cursor.) */
    method SkipZeroBytes()
      modifies this
      ensures unchanged(buffer)
      ensures position == SkipZeros(buffer[..], old(position))
    {
      ghost var start := position;
      while position < buffer.Length && buffer[position] == 0
        invariant start <= position
        invariant SkipZeros(buffer[..], position) == SkipZeros(buffer[..], start)
        decreases buffer.Length - position
      {
        position := position + 1;
      }
    }

    /** The switch of `parseSection` on an accepted tag, with the cursor just past the
        header at `at`. */
    method ParseSectionBody(tag: Tag, at: nat, length: uint32) returns (r: Option<Section>)
      requires position == at + 8 <= buffer.Length && at + length <= buffer.Length
      modifies this
      ensures unchanged(buffer)
      ensures r == ParseBody(buffer[..], at, tag, length)
      decreases buffer.Length - at, 0
    {
      if tag == RifxTag || tag == ListTag {
        var form :- ReadString(4);
        var children := CollectChildren(position, at + length);
        return Some(Section(tag, at, length, Container(form, children)));
      }
      var payload :- ReadLeaf(tag, at, length);
      return Some(Section(tag, at, length, payload));
    }

    /** The child loop of the RIFX and LIST arms of `parseSection` (the two arms are
        identical): parse a child at `childOffset`, stop at the first failure, otherwise
        append it and move to its length plus eight past `childOffset`, rounded up to
        even, while `childOffset` is before `end`. */
    method CollectChildren(start: nat, end: nat) returns (children: seq<Section>)
      requires end <= buffer.Length
      modifies this
      ensures unchanged(buffer)
      ensures children == ContainerChildren(buffer[..], start, end)
      decreases buffer.Length - start, 3
    {
      ghost var buf := buffer[..];
      children := [];
      var childOffset := start;
      while childOffset < end
        invariant start <= childOffset
        invariant children + ContainerChildren(buf, childOffset, end)
                  == ContainerChildren(buf, start, end)
        decreases end - childOffset
      {
        var child := ParseSection(childOffset);
        if child.None? {
          ContainerChildrenStop(buf, start, childOffset, end, children);
          return;
        }
        ContainerChildrenStep(buf, start, childOffset, end, children);
        children := children + [child.value];
        childOffset := childOffset + child.value.length + 8;
        if childOffset % 2 != 0 {
          childOffset := childOffset + 1;
        }
      }
      ContainerChildrenStop(buf, start, childOffset, end, children);
    }

    /** The leaf arms of `parseSection`'s switch, entered with the cursor just past the
        header of a section at `at` whose tag and length were accepted. */
    method ReadLeaf(tag: Tag, at: nat, length: uint32) returns (r: Option<Payload>)
      requires !IsContainer(tag)
      requires position == at + 8 <= buffer.Length && at + length <= buffer.Length
      modifies this
      ensures unchanged(buffer)
      ensures r == DecodeLeaf(buffer[..], tag, at, length)
    {
      if IsTextTag(tag) {
        var text := ReadText(tag, at, length);
        return Some(text);
      } else if RecordArity(tag) > 0 {
        r := ReadRecord(tag);
      } else if tag == TdptTag || tag == TdpiTag {
        var word :- ReadUInt32();
        return Some(Scalar(word));
      } else if tag == Tdb4Tag {
        r := ReadTdb4(at, length);
      } else {
        // prmm, tdxp, tglf, tdpf and the default arm
        var data := Slice(buffer[..], position, at + length);
        position := at + length;
        return Some(Opaque(data));
      }
    }

    /** The fnam, tdmn and tdsn arms. The tdmn/tdsn read cannot overflow: the header
        check already put `at + length` within the buffer. */
    method ReadText(tag: Tag, at: nat, length: uint32) returns (r: Payload)
      requires IsTextTag(tag)
      requires position == at + 8 <= buffer.Length && at + length <= buffer.Length
      modifies this
      ensures unchanged(buffer)
      ensures r == DecodeText(buffer[..], tag, at, length)
    {
      if tag == FnamTag {
        var nameData := Slice(buffer[..], position, at + length);
        position := at + length;
        return Text(StripTrailingNul(nameData));
      }
      if length - 8 > 0 {
        var name := ReadString(length - 8);
        return Text(StripTrailingNul(name.value));
      }
      return NoValue;
    }

    /** The tdsb, tdsl, tdps and parn arms: their words, read one after another from the
        cursor, whatever the declared length says. */
    method ReadRecord(tag: Tag) returns (r: Option<Payload>)
      requires RecordArity(tag) > 0
      modifies this
      ensures unchanged(buffer)
      ensures r == RecordAt(buffer[..], old(position), RecordArity(tag))
    {
      ghost var q := position;
      if tag == TdsbTag {
        var propertyType :- ReadUInt32();
        var value :- ReadUInt32();
        var flags :- ReadUInt32();
        assert Words(buffer[..], q, 3) == [propertyType, value, flags];
        return Some(Record([propertyType, value, flags]));
      } else if tag == TdslTag {
        var defaultValue :- ReadUInt32();
        var minValue :- ReadUInt32();
        var maxValue :- ReadUInt32();
        var precision :- ReadUInt32();
        assert Words(buffer[..], q, 4) == [defaultValue, minValue, maxValue, precision];
        return Some(Record([defaultValue, minValue, maxValue, precision]));
      } else if tag == TdpsTag {
        var kind :- ReadUInt32();
        var flags :- ReadUInt32();
        assert Words(buffer[..], q, 2) == [kind, flags];
        return Some(Record([kind, flags]));
      } else {
        var count :- ReadUInt32();
        assert Words(buffer[..], q, 1) == [count];
        return Some(Record([count]));
      }
    }

    /** The tdb4 arm: four words, four more when the declared length exceeds 16, and the
        bytes left before `at + length` as trailing data when the cursor has not reached
        it. */
    method ReadTdb4(at: nat, length: uint32) returns (r: Option<Payload>)
      requires position == at + 8 <= buffer.Length && at + length <= buffer.Length
      modifies this
      ensures unchanged(buffer)
      ensures r == DecodeTdb4(buffer[..], at, length)
    {
      var values :- ReadFourWords();
      if length > 16 {
        var more :- ReadFourWords();
        values := values + more;
        WordsSplit(buffer[..], at + 8, 4, 4);
      }
      var trailing := None;
      if position < at + length {
        trailing := Some(Slice(buffer[..], position, at + length));
        position := at + length;
      }
      return Some(Tdb4(values, trailing));
    }

    /** Four big-endian words read one after another from the cursor: the `value1` to
        `value4` group of the tdb4 arm, and the `value5` to `value8` group. */
    method ReadFourWords() returns (r: Option<seq<uint32>>)
      modifies this
      ensures unchanged(buffer)
      ensures r.None? <==> old(position) + 16 > buffer.Length
      ensures r.Some? ==> r.value == Words(buffer[..], old(position), 4)
                          && position == old(position) + 16
    {
      ghost var q := position;
      var first :- ReadUInt32();
      var second :- ReadUInt32();
      var third :- ReadUInt32();
      var fourth :- ReadUInt32();
      assert Words(buffer[..], q, 4) == [first, second, third, fourth];
      return Some([first, second, third, fourth]);
    }

    /** The unused `parseChildren(start, length)` helper: sections parsed from `start`
        while the offset is before `start + length` and a header still fits, each step
        advancing by the child's length plus eight. */
    method ParseChildren(start: nat, length: nat) returns (children: seq<Section>)
      modifies this
      ensures unchanged(buffer)
      ensures children == ScannedChildren(buffer[..], start, start + length)
    {
      ghost var buf := buffer[..];
      children := [];
      var currentOffset := start;
      var end := start + length;
      while currentOffset < end
        invariant children + ScannedChildren(buf, currentOffset, end)
                  == ScannedChildren(buf, start, end)
        decreases end - currentOffset
      {
        if currentOffset + 8 > buffer.Length {
          break;
        }
        var section := ParseSection(currentOffset);
        if section.None? {
          break;
        }
        ScannedChildrenStep(buf, start, currentOffset, end, children);
        children := children + [section.value];
        // Math.max(length + 8, 8) is always length + 8: the length is unsigned.
        currentOffset := currentOffset + section.value.length + 8;
      }
    }
  }
}
