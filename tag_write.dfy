/**
 * Serialisation of annotated tag objects, git-object/src/tag/write.rs.
 *
 * A tag is written as a block of "key SP value NL" headers (object, type, tag and optionally
 * tagger), one empty line, the message and, when present, a PGP signature after one more NL.
 * Reference name validation (`git_validate::tag::name`) is a parameter; a signature is given by
 * the bytes it encodes to.
 */
module TagWrite {
  import opened Base

  const SP: byte := 0x20
  const NL: byte := 0x0A
  const DASH: byte := 0x2D

  /** SHA-1 is the only hash kind: 20 bytes, 40 hex digits. */
  const SHA1_LEN_IN_BYTES: nat := 20
  const SHA1_LEN_IN_HEX: nat := 40

  datatype ObjectId = ObjectId(bytes: seq<byte>)

  predicate ValidId(id: ObjectId) {
    |id.bytes| == SHA1_LEN_IN_BYTES
  }

  /** A lower-case hex digit. */
  function HexDigit(n: nat): byte
    requires n < 16
  {
    if n < 10 then 0x30 + n else 0x61 + (n - 10)
  }

  /** The hex spelling of an id, two lower-case digits per byte, most significant nibble first. */
  function ToHex(bytes: seq<byte>): (r: seq<byte>)
    ensures |r| == 2 * |bytes|
    ensures forall j :: 0 <= j < |bytes| ==> r[2 * j] == HexDigit(bytes[j] / 16) && r[2 * j + 1] == HexDigit(bytes[j] % 16)
  {
    if bytes == [] then []
    else [HexDigit(bytes[0] / 16), HexDigit(bytes[0] % 16)] + ToHex(bytes[1..])
  }

  datatype Kind = Tree | Blob | Commit | Tag

  /** `Kind::as_bytes`. */
  function KindBytes(k: Kind): seq<byte> {
    match k
    case Tree => Ascii("tree")
    case Blob => Ascii("blob")
    case Commit => Ascii("commit")
    case Tag => Ascii("tag")
  }

  /** A signature, by the bytes its encoding writes; its `size()` is their number. */
  datatype Signature = Signature(encoded: seq<byte>)

  /** `TagRef`, borrowing its fields. */
  datatype TagRef = TagRef(
    target: ObjectId,
    targetKind: Kind,
    name: seq<byte>,
    tagger: Option<Signature>,
    message: seq<byte>,
    pgpSignature: Option<seq<byte>>)

  /** `Tag`, the owned variant. */
  datatype Tag = OwnedTag(
    target: ObjectId,
    targetKind: Kind,
    name: seq<byte>,
    tagger: Option<Signature>,
    message: seq<byte>,
    pgpSignature: Option<seq<byte>>)

  /** `TagRef::from(&Tag)`. */
  function ToRef(t: Tag): TagRef {
    TagRef(t.target, t.targetKind, t.name, t.tagger, t.message, t.pgpSignature)
  }

  datatype Error = StartsWithDash | InvalidRefName

  /**
   * `validated_name`: the name must pass reference-name validation and must not start with '-'.
   * Validation is the parameter `isValidTagName`; it never accepts the empty name, so the first
   * byte exists once it passes.
   */
  function ValidatedName(name: seq<byte>, isValidTagName: seq<byte> -> bool): (r: Result<seq<byte>, Error>)
    requires !isValidTagName([])
    ensures r.Ok? <==> isValidTagName(name) && name[0] != DASH
    ensures r.Ok? ==> r.value == name
    ensures r == Err(InvalidRefName) <==> !isValidTagName(name)
    ensures r == Err(StartsWithDash) <==> isValidTagName(name) && name[0] == DASH
  {
    if !isValidTagName(name) then Err(InvalidRefName)
    else if name[0] == DASH then Err(StartsWithDash)
    else Ok(name)
  }

  /** What each `encode::*header*` helper writes: key, space, value, newline. */
  function Header(key: seq<byte>, value: seq<byte>): seq<byte> {
    key + [SP] + value + [NL]
  }

  function ObjectHeader(t: TagRef): seq<byte> { Header(Ascii("object"), ToHex(t.target.bytes)) }
  function TypeHeader(t: TagRef): seq<byte> { Header(Ascii("type"), KindBytes(t.targetKind)) }
  function NameHeader(t: TagRef): seq<byte> { Header(Ascii("tag"), t.name) }

  function TaggerHeader(t: TagRef): seq<byte> {
    match t.tagger
    case None => []
    case Some(s) => Header(Ascii("tagger"), s.encoded)
  }

  function SignatureBlock(t: TagRef): seq<byte> {
    match t.pgpSignature
    case None => []
    case Some(m) => [NL] + m
  }

  /**
   * The bytes a successful `write_to` emits. What a write that fails on the name leaves behind,
   * the object and type headers, opens it.
   */
  function Encoded(t: TagRef): (e: seq<byte>)
    ensures |ObjectHeader(t) + TypeHeader(t)| <= |e|
    ensures e[..|ObjectHeader(t) + TypeHeader(t)|] == ObjectHeader(t) + TypeHeader(t)
  {
    var front := ObjectHeader(t) + TypeHeader(t);
    var e := ObjectHeader(t) + TypeHeader(t) + NameHeader(t) + TaggerHeader(t) + [NL] + t.message + SignatureBlock(t);
    assert e == front + (NameHeader(t) + TaggerHeader(t) + [NL] + t.message + SignatureBlock(t));
    e
  }

  /** `TagRef::write_to`: each header is appended to `out` in turn; a rejected name stops after the type header. */
  method WriteTo(t: TagRef, isValidTagName: seq<byte> -> bool, out: seq<byte>) returns (written: seq<byte>, err: Option<Error>)
    requires !isValidTagName([])
    ensures err.None? <==> ValidatedName(t.name, isValidTagName).Ok?
    ensures err.None? ==> written == out + Encoded(t)
    ensures err.Some? ==> err.value == ValidatedName(t.name, isValidTagName).error
    ensures err.Some? ==> written == out + ObjectHeader(t) + TypeHeader(t)
  {
    written := out;
    written := written + Header(Ascii("object"), ToHex(t.target.bytes));
    written := written + Header(Ascii("type"), KindBytes(t.targetKind));
    var name := ValidatedName(t.name, isValidTagName);
    if name.Err? {
      return written, Some(name.error);
    }
    // `acc` is what has been appended so far, grouped as `Encoded` groups it
    ghost var acc := ObjectHeader(t) + TypeHeader(t);
    AppendAssoc(out, ObjectHeader(t), TypeHeader(t));
    assert written == out + acc;
    written := written + Header(Ascii("tag"), name.value);
    AppendAssoc(out, acc, NameHeader(t));
    acc := acc + NameHeader(t);
    assert written == out + acc;
    if t.tagger.Some? {
      written := written + Header(Ascii("tagger"), t.tagger.value.encoded);
    } else {
      assert acc + TaggerHeader(t) == acc;
    }
    AppendAssoc(out, acc, TaggerHeader(t));
    acc := acc + TaggerHeader(t);
    assert written == out + acc;
    written := written + [NL];
    AppendAssoc(out, acc, [NL]);
    acc := acc + [NL];
    assert written == out + acc;
    if t.message != [] {
      written := written + t.message;
    } else {
      assert acc + t.message == acc;
    }
    AppendAssoc(out, acc, t.message);
    acc := acc + t.message;
    assert written == out + acc;
    if t.pgpSignature.Some? {
      written := written + [NL];
      written := written + t.pgpSignature.value;
      AppendAssoc(out + acc, [NL], t.pgpSignature.value);
    } else {
      assert acc + SignatureBlock(t) == acc;
    }
    AppendAssoc(out, acc, SignatureBlock(t));
    assert acc + SignatureBlock(t) == Encoded(t);
    err := None;
  }

  /** Concatenation regroups. */
  lemma AppendAssoc(a: seq<byte>, b: seq<byte>, c: seq<byte>)
    ensures a + b + c == a + (b + c)
  {
  }

  /** `TagRef::size`, the closed form: for an id of the hash kind's length, the number of bytes written. */
  function Size(t: TagRef): (n: nat)
    ensures ValidId(t.target) ==> n == |Encoded(t)|
  {
    6 + 1 + SHA1_LEN_IN_HEX + 1
    + 4 + 1 + |KindBytes(t.targetKind)| + 1
    + 3 + 1 + |t.name| + 1
    + (match t.tagger case None => 0 case Some(s) => 6 + 1 + |s.encoded| + 1)
    + 1 + |t.message|
    + (match t.pgpSignature case None => 0 case Some(m) => 1 + |m|)
  }

  /** The header block has the same length whether or not a tagger follows it. */
  function HeadLength(t: TagRef): nat {
    |ObjectHeader(t) + TypeHeader(t) + NameHeader(t)|
  }

  /** Right after the tag header: a "tagger " line exactly when there is a tagger, the empty line otherwise. */
  lemma TaggerLineIff(t: TagRef)
    ensures var rest := Encoded(t)[HeadLength(t)..];
      (|rest| >= 7 && rest[..7] == Ascii("tagger ")) <==> t.tagger.Some?
    ensures t.tagger.None? ==> Encoded(t)[HeadLength(t)] == NL
  {
    var head := ObjectHeader(t) + TypeHeader(t) + NameHeader(t);
    var rest := Encoded(t)[HeadLength(t)..];
    assert Encoded(t) == head + (TaggerHeader(t) + [NL] + t.message + SignatureBlock(t));
    assert rest == TaggerHeader(t) + [NL] + t.message + SignatureBlock(t);
    if t.tagger.Some? {
      assert rest[..7] == TaggerHeader(t)[..7] == Ascii("tagger ");
    } else {
      assert rest[0] == NL;
    }
  }

  /** The message follows the empty line unchanged; an empty message adds no bytes. */
  lemma MessagePlacement(t: TagRef)
    ensures var start := HeadLength(t) + |TaggerHeader(t)| + 1;
      Encoded(t)[start - 1] == NL && Encoded(t)[start..start + |t.message|] == t.message
    ensures t.message == [] ==> |Encoded(t)| == HeadLength(t) + |TaggerHeader(t)| + 1 + |SignatureBlock(t)|
  {
    var head := ObjectHeader(t) + TypeHeader(t) + NameHeader(t) + TaggerHeader(t) + [NL];
    assert Encoded(t) == head + t.message + SignatureBlock(t);
  }

  /** A PGP signature comes last, after exactly one NL that ends the message. */
  lemma SignatureIsLast(t: TagRef, m: seq<byte>)
    requires t.pgpSignature == Some(m)
    ensures |Encoded(t)| >= |m| + 1
    ensures Encoded(t)[|Encoded(t)| - |m|..] == m
    ensures Encoded(t)[|Encoded(t)| - |m| - 1] == NL
  {
    var front := ObjectHeader(t) + TypeHeader(t) + NameHeader(t) + TaggerHeader(t) + [NL] + t.message;
    assert Encoded(t) == front + [NL] + m;
  }

  /** The encoding opens with the object line and its 40 hex digits. */
  lemma EncodedStartsWithObjectLine(t: TagRef)
    requires ValidId(t.target)
    ensures Encoded(t)[..7] == Ascii("object ")
    ensures Encoded(t)[7..47] == ToHex(t.target.bytes)
    ensures Encoded(t)[47] == NL
  {
    var o := ObjectHeader(t);
    assert |o| == 48;
    var e := o + TypeHeader(t);
    PrefixStays(o, TypeHeader(t), 48);
    PrefixStays(e, NameHeader(t), 48);
    e := e + NameHeader(t);
    PrefixStays(e, TaggerHeader(t), 48);
    e := e + TaggerHeader(t);
    PrefixStays(e, [NL], 48);
    e := e + [NL];
    PrefixStays(e, t.message, 48);
    e := e + t.message;
    PrefixStays(e, SignatureBlock(t), 48);
    assert Encoded(t)[..48] == o;
    assert o == Ascii("object") + [SP] + ToHex(t.target.bytes) + [NL];
    assert Encoded(t)[..7] == o[..7] && Encoded(t)[7..47] == o[7..47] && Encoded(t)[47] == o[47];
  }

  /** Appending keeps a prefix of the left operand. */
  lemma PrefixStays(a: seq<byte>, b: seq<byte>, n: nat)
    requires n <= |a|
    ensures (a + b)[..n] == a[..n]
  {
  }

  /** `kind()` of a `TagRef`. */
  function TagRefKind(t: TagRef): (k: Kind)
    ensures k == Tag
  {
    Tag
  }

  /** `kind()` of a `Tag`. */
  function TagKind(t: Tag): (k: Kind)
    ensures k == Tag && k == TagRefKind(ToRef(t))
  {
    Tag
  }

  /** `Tag::size` delegates to the borrowed view. */
  function TagSize(t: Tag): (n: nat)
    ensures ValidId(t.target) ==> n == |Encoded(ToRef(t))|
  {
    Size(ToRef(t))
  }

  /** `Tag::write_to` delegates to the borrowed view. */
  method TagWriteTo(t: Tag, isValidTagName: seq<byte> -> bool, out: seq<byte>) returns (written: seq<byte>, err: Option<Error>)
    requires !isValidTagName([])
    ensures err.None? <==> ValidatedName(t.name, isValidTagName).Ok?
    ensures err.None? ==> written == out + Encoded(ToRef(t))
    ensures err.Some? ==> err.value == ValidatedName(t.name, isValidTagName).error
    ensures err.Some? ==> written == out + ObjectHeader(ToRef(t)) + TypeHeader(ToRef(t))
  {
    written, err := WriteTo(ToRef(t), isValidTagName, out);
  }
}
