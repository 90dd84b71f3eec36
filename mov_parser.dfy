/** The top-level atom enumerator of src/mov_parser.rs. An atom header is the
    box header of section 4.2 of ISO/IEC 14496-12: a 32-bit big-endian size
    followed by a four-byte type. Only that form is read: a size of 1 (a 64-bit
    size follows) and a size of 0 (the box runs to the end of the file) get no
    special treatment.

    The file is a byte sequence with a read cursor; the parser's `offset`, the
    sum of the sizes read so far, is a separate number. */
module MovParser {
  import opened Wrappers
  import opened Bytes

  /** A four-character atom type such as `moov`. */
  type FourCC = s: seq<Byte> | |s| == 4 witness [0, 0, 0, 0]

  datatype MovAtom = MovAtom(size: nat, atomType: FourCC, offset: nat)

  datatype IoError = UnexpectedEof

  const HeaderSize: nat := 8

  /** `u32::from_be_bytes`, most significant byte first. */
  function FromBigEndian(b: FourCC): (n: nat)
    ensures n < 0x1_0000_0000
  {
    ((b[0] as nat * 0x100 + b[1] as nat) * 0x100 + b[2] as nat) * 0x100 + b[3] as nat
  }

  /** `u32::to_be_bytes`. */
  function ToBigEndian(n: nat): (b: FourCC)
    requires n < 0x1_0000_0000
  {
    var n1 := n / 0x100;
    var n2 := n1 / 0x100;
    [(n2 / 0x100) as Byte, (n2 % 0x100) as Byte, (n1 % 0x100) as Byte, (n % 0x100) as Byte]
  }

  lemma DivModByte(q: nat, r: nat)
    requires r < 0x100
    ensures (q * 0x100 + r) / 0x100 == q && (q * 0x100 + r) % 0x100 == r
  {
  }

  /** Reading back the bytes of a 32-bit size gives the size. */
  lemma FromToBigEndian(n: nat)
    requires n < 0x1_0000_0000
    ensures FromBigEndian(ToBigEndian(n)) == n
  {
    var n1 := n / 0x100;
    var n2 := n1 / 0x100;
    assert n == n1 * 0x100 + n % 0x100;
    assert n1 == n2 * 0x100 + n1 % 0x100;
    assert n2 == (n2 / 0x100) * 0x100 + n2 % 0x100;
  }

  /** Writing out the size read from four bytes gives those bytes back. */
  lemma ToFromBigEndian(b: FourCC)
    ensures ToBigEndian(FromBigEndian(b)) == b
  {
    var n2 := b[0] as nat * 0x100 + b[1] as nat;
    var n1 := n2 * 0x100 + b[2] as nat;
    var n := n1 * 0x100 + b[3] as nat;
    DivModByte(n1, b[3] as nat);
    DivModByte(n2, b[2] as nat);
    DivModByte(b[0] as nat, b[1] as nat);
    var r := ToBigEndian(n);
    assert r[0] == b[0] && r[1] == b[1] && r[2] == b[2] && r[3] == b[3];
  }

  /** How far the file cursor moves for one atom: the 8 header bytes, plus a
      skip of `size - 8` when the size exceeds 8. The cursor always moves
      past the header, so the loop cannot stall, and past the whole atom,
      but never further than the larger of the two. */
  function CursorStep(size: nat): (r: nat)
    ensures r >= HeaderSize && r >= size
    ensures r == size || r == HeaderSize
  {
    if size > HeaderSize then size else HeaderSize
  }

  /** The parser's offset after `atoms`: the sum of their sizes. */
  function OffsetAfter(atoms: seq<MovAtom>): nat
  {
    if |atoms| == 0 then 0 else OffsetAfter(atoms[..|atoms| - 1]) + atoms[|atoms| - 1].size
  }

  /** The file cursor after `atoms`, counted from the start of the file. */
  function CursorAfter(atoms: seq<MovAtom>): nat
  {
    if |atoms| == 0 then 0 else CursorAfter(atoms[..|atoms| - 1]) + CursorStep(atoms[|atoms| - 1].size)
  }

  /** Atom `k` was read from the header at the cursor left by the atoms before
      it, carries the offset they add up to, and that offset was still inside
      the file. */
  ghost predicate DecodedAt(file: seq<Byte>, atoms: seq<MovAtom>, k: nat)
    requires k < |atoms|
  {
    var c := CursorAfter(atoms[..k]);
    && c + HeaderSize <= |file|
    && atoms[k].size == FromBigEndian(file[c..c + 4])
    && atoms[k].atomType == file[c + 4..c + 8]
    && atoms[k].offset == OffsetAfter(atoms[..k])
    && atoms[k].offset < |file|
  }

  ghost predicate Decoded(file: seq<Byte>, atoms: seq<MovAtom>)
  {
    forall k :: 0 <= k < |atoms| ==> DecodedAt(file, atoms, k)
  }

  /** What `parse_atoms` returns for `file`: either every atom header up to the
      first offset at or past the end of the file, in file order; or an
      end-of-file error, when a header read ran past the end of the file before
      the offset got there. */
  ghost predicate ParsedAs(file: seq<Byte>, r: Result<seq<MovAtom>, IoError>)
  {
    match r
    case Ok(atoms) => Decoded(file, atoms) && OffsetAfter(atoms) >= |file|
    case Err(e) =>
      exists atoms :: Decoded(file, atoms) && OffsetAfter(atoms) < |file| && CursorAfter(atoms) + HeaderSize > |file|
  }

  /** The cursor never falls behind the offset, and the two agree exactly when
      no atom is smaller than its own header. */
  lemma {:induction false} CursorVersusOffset(atoms: seq<MovAtom>)
    ensures CursorAfter(atoms) >= OffsetAfter(atoms)
    ensures CursorAfter(atoms) == OffsetAfter(atoms) <==> forall k :: 0 <= k < |atoms| ==> atoms[k].size >= HeaderSize
  {
    if |atoms| > 0 {
      var init := atoms[..|atoms| - 1];
      CursorVersusOffset(init);
      assert forall k :: 0 <= k < |init| ==> init[k] == atoms[k];
    }
  }

  /** When every size is at least 8, each atom's header sits at its own offset. */
  lemma HeadersAtOffsets(file: seq<Byte>, atoms: seq<MovAtom>)
    requires Decoded(file, atoms)
    requires forall k :: 0 <= k < |atoms| ==> atoms[k].size >= HeaderSize
    ensures forall k :: 0 <= k < |atoms| ==>
              && atoms[k].offset + HeaderSize <= |file|
              && atoms[k].size == FromBigEndian(file[atoms[k].offset..atoms[k].offset + 4])
              && atoms[k].atomType == file[atoms[k].offset + 4..atoms[k].offset + 8]
  {
    forall k | 0 <= k < |atoms|
      ensures atoms[k].offset + HeaderSize <= |file|
      ensures atoms[k].size == FromBigEndian(file[atoms[k].offset..atoms[k].offset + 4])
      ensures atoms[k].atomType == file[atoms[k].offset + 4..atoms[k].offset + 8]
    {
      assert DecodedAt(file, atoms, k);
      var prefix := atoms[..k];
      assert forall j :: 0 <= j < |prefix| ==> prefix[j].size >= HeaderSize by {
        forall j | 0 <= j < |prefix| ensures prefix[j].size >= HeaderSize {
          assert prefix[j] == atoms[j];
        }
      }
      CursorVersusOffset(prefix);
    }
  }

  /** Two decodings of the same file agree on every atom they both have. */
  lemma {:induction false} DecodedPrefixesAgree(file: seq<Byte>, a: seq<MovAtom>, b: seq<MovAtom>, n: nat)
    requires Decoded(file, a) && Decoded(file, b)
    requires n <= |a| && n <= |b|
    ensures a[..n] == b[..n]
  {
    if n > 0 {
      DecodedPrefixesAgree(file, a, b, n - 1);
      assert DecodedAt(file, a, n - 1) && DecodedAt(file, b, n - 1);
      assert a[..n - 1] == b[..n - 1];
      assert a[n - 1] == b[n - 1];
      assert a[..n] == a[..n - 1] + [a[n - 1]];
      assert b[..n] == b[..n - 1] + [b[n - 1]];
    }
  }

  /** A file has one parse result: the outcome that `parse_atoms` promises is
      determined by the bytes. */
  lemma ParseResultUnique(file: seq<Byte>, r1: Result<seq<MovAtom>, IoError>, r2: Result<seq<MovAtom>, IoError>)
    requires ParsedAs(file, r1) && ParsedAs(file, r2)
    ensures r1 == r2
  {
    match (r1, r2) {
      case (Ok(a), Ok(b)) =>
        CompleteListsAgree(file, a, b);
      case (Ok(a), Err(_)) =>
        var b :| Decoded(file, b) && OffsetAfter(b) < |file| && CursorAfter(b) + HeaderSize > |file|;
        CompleteListIsLast(file, a, b);
        assert false;
      case (Err(_), Ok(b)) =>
        var a :| Decoded(file, a) && OffsetAfter(a) < |file| && CursorAfter(a) + HeaderSize > |file|;
        CompleteListIsLast(file, b, a);
        assert false;
      case (Err(e1), Err(e2)) =>
        assert e1.UnexpectedEof? && e2.UnexpectedEof?;
    }
  }

  /** A decoded list that a longer decoded list extends stopped short of the end
      of the file, with room for one more header. */
  lemma PrefixOfLonger(file: seq<Byte>, a: seq<MovAtom>, b: seq<MovAtom>)
    requires Decoded(file, a) && Decoded(file, b) && |a| < |b|
    ensures OffsetAfter(a) < |file| && CursorAfter(a) + HeaderSize <= |file|
  {
    DecodedPrefixesAgree(file, a, b, |a|);
    assert DecodedAt(file, b, |a|);
    assert b[..|a|] == a;
  }

  /** Two decoded lists that both reach the end of the file are the same list. */
  lemma CompleteListsAgree(file: seq<Byte>, a: seq<MovAtom>, b: seq<MovAtom>)
    requires Decoded(file, a) && OffsetAfter(a) >= |file|
    requires Decoded(file, b) && OffsetAfter(b) >= |file|
    ensures a == b
  {
    if |a| < |b| {
      PrefixOfLonger(file, a, b);
      assert false;
    } else if |b| < |a| {
      PrefixOfLonger(file, b, a);
      assert false;
    } else {
      DecodedPrefixesAgree(file, a, b, |a|);
      assert a == a[..|a|] && b == b[..|b|];
    }
  }

  /** A decoded list that reaches the end of the file equals any decoded list
      whose next header read would fail. */
  lemma CompleteListIsLast(file: seq<Byte>, a: seq<MovAtom>, b: seq<MovAtom>)
    requires Decoded(file, a) && OffsetAfter(a) >= |file|
    requires Decoded(file, b) && CursorAfter(b) + HeaderSize > |file|
    ensures a == b
  {
    if |b| < |a| {
      PrefixOfLonger(file, b, a);
      assert false;
    } else if |a| < |b| {
      PrefixOfLonger(file, a, b);
      assert false;
    } else {
      DecodedPrefixesAgree(file, a, b, |a|);
      assert a == a[..|a|] && b == b[..|b|];
    }
  }

  /** `atoms.into_iter().find(|a| a.atom_type == atom_type)`. */
  function FindFirst(atoms: seq<MovAtom>, atomType: FourCC): (r: Option<MovAtom>)
    ensures r.Some? ==> exists k :: 0 <= k < |atoms| && atoms[k] == r.value && r.value.atomType == atomType
                                    && forall j :: 0 <= j < k ==> atoms[j].atomType != atomType
    ensures r.None? ==> forall k :: 0 <= k < |atoms| ==> atoms[k].atomType != atomType
  {
    if |atoms| == 0 then None
    else if atoms[0].atomType == atomType then Some(atoms[0])
    else
      var r := FindFirst(atoms[1..], atomType);
      assert r.Some? ==> exists k :: 1 <= k < |atoms| && atoms[k] == r.value && r.value.atomType == atomType
                                     && forall j :: 1 <= j < k ==> atoms[j].atomType != atomType by {
        if r.Some? {
          var k :| 0 <= k < |atoms| - 1 && atoms[1..][k] == r.value && r.value.atomType == atomType
                   && forall j :: 0 <= j < k ==> atoms[1..][j].atomType != atomType;
          assert forall j :: 1 <= j < k + 1 ==> atoms[j] == atoms[1..][j - 1];
        }
      }
      r
  }

  /** `MovParser`: an open file, here its bytes, and the file's read cursor. */
  class MovParser {
    const file: seq<Byte>
    var cursor: nat

    /** `MovParser::new` on a file that opened. */
    constructor (contents: seq<Byte>)
      ensures file == contents && cursor == 0
    {
      file := contents;
      cursor := 0;
    }

    /** `read_exact` of `n` bytes: on running out of bytes it fails with
        `UnexpectedEof`, having consumed what was left. */
    method ReadExact(n: nat) returns (r: Result<seq<Byte>, IoError>)
      modifies this
      ensures old(cursor) + n <= |file| ==> r == Ok(file[old(cursor)..old(cursor) + n]) && cursor == old(cursor) + n
      ensures old(cursor) + n > |file| ==>
                r == Err(UnexpectedEof) && cursor == if old(cursor) < |file| then |file| else old(cursor)
    {
      if cursor + n <= |file| {
        r := Ok(file[cursor..cursor + n]);
        cursor := cursor + n;
      } else {
        r := Err(UnexpectedEof);
        if cursor < |file| {
          cursor := |file|;
        }
      }
    }

    /** `parse_atoms`. */
    method ParseAtoms() returns (r: Result<seq<MovAtom>, IoError>)
      modifies this
      ensures ParsedAs(file, r)
      ensures r.Ok? ==> cursor == CursorAfter(r.value)
    {
      var atoms: seq<MovAtom> := [];
      var fileSize := |file|;
      cursor := 0;  // seek(SeekFrom::Start(0))
      var offset: nat := 0;
      while offset < fileSize
        invariant Decoded(file, atoms)
        invariant offset == OffsetAfter(atoms)
        invariant cursor == CursorAfter(atoms)
        decreases fileSize - cursor
      {
        ghost var headerAt := cursor;
        var sizeBytes := ReadExact(4);
        if sizeBytes.Err? {
          return Err(sizeBytes.error);
        }
        var size := FromBigEndian(sizeBytes.value);
        var atomType := ReadExact(4);
        if atomType.Err? {
          return Err(atomType.error);
        }
        var atom := MovAtom(size, atomType.value, offset);
        DecodedExtend(file, atoms, atom);
        atoms := atoms + [atom];
        if size > HeaderSize {
          cursor := cursor + (size - HeaderSize);  // seek(SeekFrom::Current(size - 8))
        }
        offset := offset + size;
      }
      return Ok(atoms);
    }

    /** `find_atom`: the first atom of the given type, after parsing the whole file. */
    method FindAtom(atomType: FourCC) returns (r: Result<Option<MovAtom>, IoError>)
      modifies this
      ensures r.Err? ==> ParsedAs(file, Err(r.error))
      ensures r.Ok? ==> exists atoms :: && ParsedAs(file, Ok(atoms)) && r.value == FindFirst(atoms, atomType)
                                       && cursor == CursorAfter(atoms)
    {
      var atoms := ParseAtoms();
      if atoms.Err? {
        return Err(atoms.error);
      }
      return Ok(FindFirst(atoms.value, atomType));
    }

    /** `get_video_info`, a stub with fixed values. */
    method GetVideoInfo() returns (r: Option<(nat, nat, real)>)
      ensures r == Some((1920, 1080, 30.0))
    {
      r := Some((1920, 1080, 30.0));
    }
  }

  /** Appending the atom whose header sits at the cursor, while the offset is
      still inside the file, keeps the list decoded and advances the offset by
      its size and the cursor by its step. */
  lemma DecodedExtend(file: seq<Byte>, atoms: seq<MovAtom>, atom: MovAtom)
    requires Decoded(file, atoms) && OffsetAfter(atoms) < |file|
    requires var c := CursorAfter(atoms);
             && c + HeaderSize <= |file|
             && atom == MovAtom(FromBigEndian(file[c..c + 4]), file[c + 4..c + 8], OffsetAfter(atoms))
    ensures Decoded(file, atoms + [atom])
    ensures OffsetAfter(atoms + [atom]) == OffsetAfter(atoms) + atom.size
    ensures CursorAfter(atoms + [atom]) == CursorAfter(atoms) + CursorStep(atom.size)
  {
    var ext := atoms + [atom];
    assert ext[..|atoms|] == atoms;
    forall k | 0 <= k < |ext| ensures DecodedAt(file, ext, k) {
      if k < |atoms| {
        assert ext[..k] == atoms[..k];
        assert DecodedAt(file, atoms, k);
      }
    }
  }
}
