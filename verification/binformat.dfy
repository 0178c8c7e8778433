/** Self-describing binary formats: a header of magic and version, and length-prefixed sections. */
module BinFormat {
  import opened Wrappers
  import opened Arithmetic

  type Byte = b: nat | b < 256

  const U64_WIDTH: nat := 8

  // ----- little-endian numbers ---------------------------------------------------

  function ToLe(n: nat, width: nat): (bytes: seq<Byte>)
    ensures |bytes| == width
  {
    if width == 0 then [] else [n % 256] + ToLe(n / 256, width - 1)
  }

  function FromLe(bytes: seq<Byte>): nat {
    if bytes == [] then 0 else bytes[0] + 256 * FromLe(bytes[1..])
  }

  lemma {:induction false} FromToLe(n: nat, width: nat)
    requires n < Power(256, width)
    ensures FromLe(ToLe(n, width)) == n
  {
    if width == 0 {
    } else {
      FromToLe(n / 256, width - 1);
    }
  }

  lemma {:induction false} ToFromLe(bytes: seq<Byte>)
    ensures FromLe(bytes) < Power(256, |bytes|) && ToLe(FromLe(bytes), |bytes|) == bytes
  {
    if bytes == [] {
    } else {
      ToFromLe(bytes[1..]);
      assert bytes == [bytes[0]] + bytes[1..];
      DivModUnique(FromLe(bytes), 256, FromLe(bytes[1..]), bytes[0]);
    }
  }

  /** The order of the bytes: byte `k` counts 256 to the `k`. */
  lemma {:induction false} ByteAt(n: nat, width: nat, k: nat)
    requires k < width
    ensures Power(256, k) > 0 && ToLe(n, width)[k] == (n / Power(256, k)) % 256
  {
    PowerPositive(256, k);
    if k == 0 {
    } else {
      PowerPositive(256, k - 1);
      ByteAt(n / 256, width - 1, k - 1);
      DivDiv(n, 256, Power(256, k - 1));
    }
  }

  // ----- the header ---------------------------------------------------------------

  datatype Context = HeaderMagic | HeaderVersion | SectionLength | SectionPayload

  datatype FormatError =
    | UnexpectedEof(context: Context, needed: nat, remaining: nat)
    | InvalidMagic
    | UnsupportedVersion(version: nat, maxVersion: nat)
    | SectionTooLarge(length: nat)

  type U64 = n: nat | n < 0x1_0000_0000_0000_0000

  lemma U64Fits(n: U64)
    ensures n < Power(256, U64_WIDTH)
  {
    assert Power(256, 4) == 0x1_0000_0000;
    assert Power(256, 8) == 256 * (256 * (256 * (256 * Power(256, 4))));
  }

  datatype FileHeader = FileHeader(magic: seq<Byte>, version: U64)
  {
    function Bytes(): seq<Byte> { magic + ToLe(version, U64_WIDTH) }
  }

  /** A byte sink with room for so many more bytes. */
  class Sink {
    var bytes: seq<Byte>
    var room: nat

    constructor (room: nat)
      ensures bytes == [] && this.room == room
    {
      bytes, this.room := [], room;
    }

    /** Writes everything, or what there is room for. */
    method WriteAll(data: seq<Byte>) returns (ok: bool)
      modifies this
      ensures ok == (|data| <= old(room))
      ensures var n := if ok then |data| else old(room);
              bytes == old(bytes) + data[..n] && room == old(room) - n
    {
      ok := |data| <= room;
      var n := if ok then |data| else room;
      bytes, room := bytes + data[..n], room - n;
    }
  }

  method WriteTo(header: FileHeader, w: Sink) returns (ok: bool)
    modifies w
    ensures ok == (|header.magic| + U64_WIDTH <= old(w.room))
    ensures var n := if ok then |header.Bytes()| else old(w.room);
            w.bytes == old(w.bytes) + header.Bytes()[..n] && w.room == old(w.room) - n
  {
    ghost var start := w.bytes;
    ok := w.WriteAll(header.magic);
    if ok {
      ghost var room := w.room;
      ok := w.WriteAll(ToLe(header.version, U64_WIDTH));
      ghost var n := if ok then U64_WIDTH else room;
      assert header.Bytes()[..|header.magic| + n] == header.magic + ToLe(header.version, U64_WIDTH)[..n];
    }
  }

  function ReadFrom(data: seq<Byte>, expectedMagic: seq<Byte>, maxVersion: U64): Result<(nat, seq<Byte>), FormatError> {
    if |data| < |expectedMagic| then Err(UnexpectedEof(HeaderMagic, |expectedMagic|, |data|))
    else
      var (actualMagic, afterMagic) := (data[..|expectedMagic|], data[|expectedMagic|..]);
      if actualMagic != expectedMagic then Err(InvalidMagic)
      else if |afterMagic| < U64_WIDTH then Err(UnexpectedEof(HeaderVersion, U64_WIDTH, |afterMagic|))
      else
        var version := FromLe(afterMagic[..U64_WIDTH]);
        if version > maxVersion then Err(UnsupportedVersion(version, maxVersion))
        else Ok((version, afterMagic[U64_WIDTH..]))
  }

  /** Reading succeeds on exactly what writing produces, followed by anything. */
  lemma ReadsExactlyWhatIsWritten(data: seq<Byte>, magic: seq<Byte>, maxVersion: U64, version: nat, rest: seq<Byte>)
    ensures ReadFrom(data, magic, maxVersion) == Ok((version, rest)) <==>
            version <= maxVersion && data == FileHeader(magic, version).Bytes() + rest
  {
    if version <= maxVersion {
      U64Fits(version);
      FromToLe(version, U64_WIDTH);
      var whole := FileHeader(magic, version).Bytes() + rest;
      assert whole[..|magic|] == magic && whole[|magic|..] == ToLe(version, U64_WIDTH) + rest;
      assert whole[|magic|..][..U64_WIDTH] == ToLe(version, U64_WIDTH) && whole[|magic|..][U64_WIDTH..] == rest;
    }
    if ReadFrom(data, magic, maxVersion).Ok? {
      var after := data[|magic|..];
      ToFromLe(after[..U64_WIDTH]);
      assert data == data[..|magic|] + after && after == after[..U64_WIDTH] + after[U64_WIDTH..];
    }
  }

  /** More bytes at the end change no decision already made: a success keeps its version and gets a
      longer rest, a refusal stays; and a short read stays short until enough bytes have come. */
  lemma HeaderIsStable(data: seq<Byte>, more: seq<Byte>, magic: seq<Byte>, maxVersion: U64)
    ensures var r, r' := ReadFrom(data, magic, maxVersion), ReadFrom(data + more, magic, maxVersion);
            match r
            case Ok((version, rest)) => r' == Ok((version, rest + more))
            case Err(UnexpectedEof(context, needed, remaining)) =>
              remaining < needed &&
              (|more| < needed - remaining ==> r' == Err(UnexpectedEof(context, needed, remaining + |more|)))
            case Err(_) => r' == r
  {
    var all := data + more;
    if |data| >= |magic| {
      assert all[..|magic|] == data[..|magic|];
      assert all[|magic|..] == data[|magic|..] + more;
      if |data| >= |magic| + U64_WIDTH {
        assert all[|magic|..][..U64_WIDTH] == data[|magic|..][..U64_WIDTH];
        assert all[|magic|..][U64_WIDTH..] == data[|magic|..][U64_WIDTH..] + more;
      }
    }
  }

  /** The data begins with `n` in eight bytes, and `rest` follows. */
  ghost predicate BeginsWith(data: seq<Byte>, n: nat, rest: seq<Byte>) {
    n < 0x1_0000_0000_0000_0000 && data == ToLe(n, U64_WIDTH) + rest
  }

  lemma BeginsWithIff(data: seq<Byte>, n: nat, rest: seq<Byte>)
    ensures BeginsWith(data, n, rest) <==>
            |data| >= U64_WIDTH && n == FromLe(data[..U64_WIDTH]) && rest == data[U64_WIDTH..]
  {
    if BeginsWith(data, n, rest) {
      U64Fits(n);
      FromToLe(n, U64_WIDTH);
      Cut(ToLe(n, U64_WIDTH), rest);
    }
    if |data| >= U64_WIDTH {
      ToFromLe(data[..U64_WIDTH]);
      EightBytesAreU64(data[..U64_WIDTH]);
      hide ToLe, FromLe;
      assert data == data[..U64_WIDTH] + data[U64_WIDTH..];
    }
  }

  /** Each refusal of a header, and exactly when it comes. */
  lemma HeaderErrors(data: seq<Byte>, magic: seq<Byte>, maxVersion: U64, e: FormatError)
    ensures ReadFrom(data, magic, maxVersion) == Err(e) <==>
            match e
            case InvalidMagic => |data| >= |magic| && !(magic <= data)
            case UnexpectedEof(HeaderMagic, needed, remaining) => remaining == |data| < needed == |magic|
            case UnexpectedEof(HeaderVersion, needed, remaining) =>
              magic <= data && remaining == |data| - |magic| < needed == U64_WIDTH
            case UnsupportedVersion(version, max) =>
              max == maxVersion < version && magic <= data && exists rest :: BeginsWith(data[|magic|..], version, rest)
            case _ => false
  {
    if |data| >= |magic| + U64_WIDTH {
      var after := data[|magic|..];
      forall n, rest ensures BeginsWith(after, n, rest) <==> n == FromLe(after[..U64_WIDTH]) && rest == after[U64_WIDTH..] {
        BeginsWithIff(after, n, rest);
      }
      assert BeginsWith(after, FromLe(after[..U64_WIDTH]), after[U64_WIDTH..]);
    } else if |data| >= |magic| {
      forall n, rest ensures !BeginsWith(data[|magic|..], n, rest) {
        BeginsWithIff(data[|magic|..], n, rest);
      }
    }
  }

  // ----- sections -------------------------------------------------------------------

  /** `usizeMax` is the largest length the platform can express. */
  function ReadSection(data: seq<Byte>, usizeMax: nat): Result<(seq<Byte>, seq<Byte>), FormatError> {
    if |data| < U64_WIDTH then Err(UnexpectedEof(SectionLength, U64_WIDTH, |data|))
    else
      var (declaredLen, afterLength) := (FromLe(data[..U64_WIDTH]), data[U64_WIDTH..]);
      if declaredLen > usizeMax then Err(SectionTooLarge(declaredLen))
      else if |afterLength| < declaredLen then Err(UnexpectedEof(SectionPayload, declaredLen, |afterLength|))
      else Ok((afterLength[..declaredLen], afterLength[declaredLen..]))
  }

  /** A payload whose length has a 64-bit encoding and fits the platform. */
  predicate Payload(p: seq<Byte>, usizeMax: nat) {
    |p| <= usizeMax && |p| < 0x1_0000_0000_0000_0000
  }

  function Section(p: seq<Byte>): seq<Byte> {
    ToLe(|p|, U64_WIDTH) + p
  }

  /** A section is exactly its length in eight little-endian bytes, its payload, and the rest. */
  lemma SectionIff(data: seq<Byte>, usizeMax: nat, p: seq<Byte>, rest: seq<Byte>)
    ensures ReadSection(data, usizeMax) == Ok((p, rest)) <==> Payload(p, usizeMax) && data == Section(p) + rest
  {
    if Payload(p, usizeMax) {
      SectionReadsBack(p, rest, usizeMax);
    }
    hide Section, Payload;
    if ReadSection(data, usizeMax).Ok? {
      hide ReadSection;
      SectionWasWritten(data, usizeMax);
    }
  }

  lemma SectionReadsBack(p: seq<Byte>, rest: seq<Byte>, usizeMax: nat)
    requires Payload(p, usizeMax)
    ensures ReadSection(Section(p) + rest, usizeMax) == Ok((p, rest))
  {
    U64Fits(|p|);
    FromToLe(|p|, U64_WIDTH);
    hide FromLe, ToLe;
    var length, whole := ToLe(|p|, U64_WIDTH), Section(p) + rest;
    Append(length, p, rest);
    Cut(length, p + rest);
    Cut(p, rest);
  }

  lemma Append(a: seq<Byte>, b: seq<Byte>, c: seq<Byte>)
    ensures a + b + c == a + (b + c)
  {
  }

  lemma Cut(a: seq<Byte>, b: seq<Byte>)
    ensures (a + b)[..|a|] == a && (a + b)[|a|..] == b
  {
  }

  lemma SectionWasWritten(data: seq<Byte>, usizeMax: nat)
    requires ReadSection(data, usizeMax).Ok?
    ensures var (p, rest) := ReadSection(data, usizeMax).value;
            Payload(p, usizeMax) && data == Section(p) + rest
  {
    var length, after := data[..U64_WIDTH], data[U64_WIDTH..];
    ToFromLe(length);
    EightBytesAreU64(length);
    hide FromLe, ToLe;
    assert data == length + after;
    assert after == after[..FromLe(length)] + after[FromLe(length)..];
  }

  lemma EightBytesAreU64(b: seq<Byte>)
    requires |b| == U64_WIDTH
    ensures FromLe(b) < 0x1_0000_0000_0000_0000
  {
    ToFromLe(b);
    assert Power(256, 4) == 0x1_0000_0000;
    assert Power(256, 8) == 256 * (256 * (256 * (256 * Power(256, 4))));
  }

  /** Each refusal of a section, and exactly when it comes. */
  lemma SectionErrors(data: seq<Byte>, usizeMax: nat, e: FormatError)
    ensures ReadSection(data, usizeMax) == Err(e) <==>
            match e
            case UnexpectedEof(SectionLength, needed, remaining) => remaining == |data| < needed == U64_WIDTH
            case SectionTooLarge(length) => length > usizeMax && exists rest :: BeginsWith(data, length, rest)
            case UnexpectedEof(SectionPayload, needed, remaining) =>
              needed <= usizeMax && exists rest :: BeginsWith(data, needed, rest) && remaining == |rest| < needed
            case _ => false
  {
    if |data| >= U64_WIDTH {
      forall n, rest ensures BeginsWith(data, n, rest) <==> n == FromLe(data[..U64_WIDTH]) && rest == data[U64_WIDTH..] {
        BeginsWithIff(data, n, rest);
      }
      assert BeginsWith(data, FromLe(data[..U64_WIDTH]), data[U64_WIDTH..]);
    } else {
      forall n, rest ensures !BeginsWith(data, n, rest) {
        BeginsWithIff(data, n, rest);
      }
    }
  }

  lemma SectionIsStable(data: seq<Byte>, more: seq<Byte>, usizeMax: nat)
    ensures var r, r' := ReadSection(data, usizeMax), ReadSection(data + more, usizeMax);
            match r
            case Ok((p, rest)) => r' == Ok((p, rest + more))
            case Err(UnexpectedEof(context, needed, remaining)) =>
              remaining < needed &&
              (|more| < needed - remaining ==> r' == Err(UnexpectedEof(context, needed, remaining + |more|)))
            case Err(_) => r' == r
  {
    if |data| >= U64_WIDTH {
      assert (data + more)[..U64_WIDTH] == data[..U64_WIDTH];
      assert (data + more)[U64_WIDTH..] == data[U64_WIDTH..] + more;
      var after, n := data[U64_WIDTH..], FromLe(data[..U64_WIDTH]);
      if n <= |after| {
        assert (after + more)[..n] == after[..n] && (after + more)[n..] == after[n..] + more;
      }
    }
  }

  // ----- runs of sections --------------------------------------------------------------

  function Sections(payloads: seq<seq<Byte>>): seq<Byte> {
    if payloads == [] then [] else Section(payloads[0]) + Sections(payloads[1..])
  }

  predicate AllPayloads(payloads: seq<seq<Byte>>, usizeMax: nat) {
    forall k | 0 <= k < |payloads| :: Payload(payloads[k], usizeMax)
  }

  /** Reading section after section to the end of the data; every section shortens it. */
  function ReadAll(data: seq<Byte>, usizeMax: nat): Result<seq<seq<Byte>>, FormatError>
    decreases |data|
  {
    if data == [] then Ok([])
    else
      match ReadSection(data, usizeMax)
      case Err(e) => Err(e)
      case Ok((p, rest)) =>
        match ReadAll(rest, usizeMax)
        case Err(e) => Err(e)
        case Ok(more) => Ok([p] + more)
  }

  /** Reading inverts writing, both ways: so the decoding of a run of sections is injective. */
  lemma {:induction false} ReadAllIff(data: seq<Byte>, usizeMax: nat, payloads: seq<seq<Byte>>)
    ensures ReadAll(data, usizeMax) == Ok(payloads) <==> AllPayloads(payloads, usizeMax) && data == Sections(payloads)
    decreases |data|, |payloads|
  {
    if ReadAll(data, usizeMax) == Ok(payloads) && data != [] {
      var (p, rest) := ReadSection(data, usizeMax).value;
      SectionIff(data, usizeMax, p, rest);
      ReadAllIff(rest, usizeMax, payloads[1..]);
      assert payloads == [p] + payloads[1..];
    }
    if AllPayloads(payloads, usizeMax) && data == Sections(payloads) && payloads != [] {
      var rest := Sections(payloads[1..]);
      SectionIff(data, usizeMax, payloads[0], rest);
      ReadAllIff(rest, usizeMax, payloads[1..]);
      assert payloads == [payloads[0]] + payloads[1..];
    }
  }

  // ----- sections inside sections ---------------------------------------------------------

  datatype Doc = Leaf(payload: seq<Byte>) | Node(children: seq<Doc>)

  /** What a reader must know to read a document: which payloads are sections again. */
  datatype Shape = Raw | Nested(parts: seq<Shape>)

  predicate HasShape(doc: Doc, shape: Shape)
    decreases doc
  {
    match (doc, shape)
    case (Leaf(_), Raw) => true
    case (Node(children), Nested(parts)) => HaveShapes(children, parts)
    case _ => false
  }

  predicate HaveShapes(docs: seq<Doc>, shapes: seq<Shape>)
    decreases docs
  {
    if docs == [] || shapes == [] then docs == [] && shapes == []
    else HasShape(docs[0], shapes[0]) && HaveShapes(docs[1..], shapes[1..])
  }

  function Encode(doc: Doc): seq<Byte>
    decreases doc
  {
    match doc
    case Leaf(p) => p
    case Node(children) => Sections(EncodeEach(children))
  }

  function EncodeEach(docs: seq<Doc>): (encoded: seq<seq<Byte>>)
    ensures |encoded| == |docs|
    decreases docs
  {
    if docs == [] then [] else [Encode(docs[0])] + EncodeEach(docs[1..])
  }

  /** Every part that becomes a payload fits. */
  predicate Encodable(doc: Doc, usizeMax: nat)
    decreases doc
  {
    doc.Node? ==> AllEncodable(doc.children, usizeMax) && AllPayloads(EncodeEach(doc.children), usizeMax)
  }

  predicate AllEncodable(docs: seq<Doc>, usizeMax: nat)
    decreases docs
  {
    docs == [] || (Encodable(docs[0], usizeMax) && AllEncodable(docs[1..], usizeMax))
  }

  function Decode(data: seq<Byte>, shape: Shape, usizeMax: nat): Option<Doc>
    decreases shape
  {
    match shape
    case Raw => Some(Leaf(data))
    case Nested(parts) =>
      match ReadAll(data, usizeMax)
      case Err(_) => None
      case Ok(payloads) =>
        match DecodeEach(payloads, parts, usizeMax)
        case None => None
        case Some(children) => Some(Node(children))
  }

  function DecodeEach(payloads: seq<seq<Byte>>, shapes: seq<Shape>, usizeMax: nat): Option<seq<Doc>>
    decreases shapes
  {
    if payloads == [] && shapes == [] then Some([])
    else if payloads == [] || shapes == [] then None
    else
      match (Decode(payloads[0], shapes[0], usizeMax), DecodeEach(payloads[1..], shapes[1..], usizeMax))
      case (Some(first), Some(others)) => Some([first] + others)
      case _ => None
  }

  /** Nested sections, of whatever shape, are decoded to a document exactly when the data is its
      encoding. */
  lemma {:induction false} NestedIff(data: seq<Byte>, shape: Shape, usizeMax: nat, doc: Doc)
    ensures Decode(data, shape, usizeMax) == Some(doc) <==>
            HasShape(doc, shape) && Encodable(doc, usizeMax) && data == Encode(doc)
    decreases shape
  {
    if shape.Raw? || doc.Leaf? {
    } else {
      var encoded := EncodeEach(doc.children);
      ReadAllIff(data, usizeMax, encoded);
      EachNestedIff(encoded, shape.parts, usizeMax, doc.children);
      if ReadAll(data, usizeMax).Ok? {
        var payloads := ReadAll(data, usizeMax).value;
        EachNestedIff(payloads, shape.parts, usizeMax, doc.children);
      }
    }
  }

  lemma {:induction false} EachNestedIff(payloads: seq<seq<Byte>>, shapes: seq<Shape>, usizeMax: nat, docs: seq<Doc>)
    ensures DecodeEach(payloads, shapes, usizeMax) == Some(docs) <==>
            HaveShapes(docs, shapes) && AllEncodable(docs, usizeMax) && payloads == EncodeEach(docs)
    decreases shapes
  {
    if payloads == [] || shapes == [] || docs == [] {
    } else {
      NestedIff(payloads[0], shapes[0], usizeMax, docs[0]);
      EachNestedIff(payloads[1..], shapes[1..], usizeMax, docs[1..]);
      hide Decode, Encode, HasShape, Encodable;
      assert docs == [docs[0]] + docs[1..] && payloads == [payloads[0]] + payloads[1..];
    }
  }

  function ShapeOf(doc: Doc): Shape
    decreases doc
  {
    match doc
    case Leaf(_) => Raw
    case Node(children) => Nested(ShapesOf(children))
  }

  function ShapesOf(docs: seq<Doc>): seq<Shape>
    decreases docs
  {
    if docs == [] then [] else [ShapeOf(docs[0])] + ShapesOf(docs[1..])
  }

  lemma {:induction false} EveryDocHasItsShape(doc: Doc)
    ensures HasShape(doc, ShapeOf(doc))
    decreases doc
  {
    match doc
    case Leaf(_) =>
    case Node(children) => AllHaveTheirShapes(children);
  }

  lemma {:induction false} AllHaveTheirShapes(docs: seq<Doc>)
    ensures HaveShapes(docs, ShapesOf(docs))
    decreases docs
  {
    if docs == [] {
    } else {
      EveryDocHasItsShape(docs[0]);
      AllHaveTheirShapes(docs[1..]);
    }
  }

  /** Every document that can be written comes back, leaves and sections mixed at any depth. */
  lemma NestedRoundTrip(doc: Doc, usizeMax: nat)
    requires Encodable(doc, usizeMax)
    ensures Decode(Encode(doc), ShapeOf(doc), usizeMax) == Some(doc)
  {
    EveryDocHasItsShape(doc);
    NestedIff(Encode(doc), ShapeOf(doc), usizeMax, doc);
  }
}
