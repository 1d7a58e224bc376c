/**
 * Tree entry modes of gix-object/src/tree/mod.rs: the octal mode parser used when decoding
 * tree objects, the classification of a raw mode into an `EntryKind`, the canonical `EntryMode`
 * built from a kind and its space-padded six byte representation.
 *
 * Dafny has no octal literals: every mode constant is written in hex with its octal spelling
 * beside it.
 */
module TreeEntryMode {
  import opened Base

  const SPACE: byte := 0x20
  const DIGIT_ZERO: byte := 0x30
  const DIGIT_SEVEN: byte := 0x37
  const U16_MODULUS: int := 0x1_0000

  predicate IsOctalDigit(b: byte) {
    DIGIT_ZERO <= b <= DIGIT_SEVEN
  }

  ghost predicate AllOctal(s: seq<byte>) {
    forall j :: 0 <= j < |s| ==> IsOctalDigit(s[j])
  }

  /** Length of the longest prefix of `i` made of octal digits. */
  function OctalPrefixLen(i: seq<byte>): (k: nat)
    ensures k <= |i|
    ensures forall j :: 0 <= j < k ==> IsOctalDigit(i[j])
    ensures k < |i| ==> !IsOctalDigit(i[k])
  {
    if i == [] || !IsOctalDigit(i[0]) then 0 else 1 + OctalPrefixLen(i[1..])
  }

  /** The number that a string of octal digits denotes, most significant digit first. */
  function OctalValue(s: seq<byte>): nat
    requires AllOctal(s)
  {
    if s == [] then 0 else OctalValue(s[..|s| - 1]) * 8 + (s[|s| - 1] - DIGIT_ZERO)
  }

  /**
   * What `parse_git_mode` computes, stated without its loop: the octal digits before the first
   * non-digit are read, provided the non-digit is a space (or the input ends there) and the loop
   * never meets an eighth digit; the value is kept in 16 bits as `u16` arithmetic does.
   */
  function ParseGitModeSpec(i: seq<byte>): Option<u16> {
    var k := OctalPrefixLen(i);
    if k > 7 then None
    else if k < |i| && i[k] != SPACE then None
    else Some(OctalValue(i[..k]) % U16_MODULUS)
  }

  /** The prefix length is pinned down by a digit run followed by a non-digit or the end. */
  lemma OctalPrefixLenAt(i: seq<byte>, k: nat)
    requires k <= |i| && forall j :: 0 <= j < k ==> IsOctalDigit(i[j])
    requires k == |i| || !IsOctalDigit(i[k])
    ensures OctalPrefixLen(i) == k
  {
  }

  /** Appending a digit shifts the value by one octal place. */
  lemma OctalValueSnoc(s: seq<byte>, d: byte)
    requires AllOctal(s) && IsOctalDigit(d)
    ensures AllOctal(s + [d])
    ensures OctalValue(s + [d]) == OctalValue(s) * 8 + (d - DIGIT_ZERO)
  {
    assert (s + [d])[..|s|] == s;
  }

  /** The same, read off one prefix of a longer input. */
  lemma OctalValueStep(s: seq<byte>, k: nat)
    requires k < |s| && AllOctal(s)
    ensures AllOctal(s[..k]) && AllOctal(s[..k + 1])
    ensures OctalValue(s[..k + 1]) == OctalValue(s[..k]) * 8 + (s[k] - DIGIT_ZERO)
  {
    assert s[..k + 1][..k] == s[..k];
  }

  /** One step of `mode = (mode << 3) + digit` on a `u16`: it wraps like the unbounded value, never overflows. */
  lemma ShiftAddWraps(a: nat, d: nat)
    requires d < 8
    ensures (a % U16_MODULUS * 8) % U16_MODULUS + d < U16_MODULUS
    ensures (a % U16_MODULUS * 8) % U16_MODULUS + d == (a * 8 + d) % U16_MODULUS
  {
    var q, r := a / 0x2000, a % 0x2000;
    var hi, lo := q / 8, q % 8;
    assert a == U16_MODULUS * hi + (0x2000 * lo + r);
    ModOfMultiple(a, hi, 0x2000 * lo + r);
    assert a % U16_MODULUS * 8 == U16_MODULUS * lo + 8 * r;
    ModOfMultiple(a % U16_MODULUS * 8, lo, 8 * r);
    assert a * 8 + d == U16_MODULUS * q + (8 * r + d);
    ModOfMultiple(a * 8 + d, q, 8 * r + d);
  }

  /** The remainder of a value written as a multiple of 2^16 plus a small rest. */
  lemma ModOfMultiple(x: int, k: int, r: int)
    requires x == U16_MODULUS * k + r && 0 <= r < U16_MODULUS
    ensures x % U16_MODULUS == r
  {
  }

  /**
   * `parse_git_mode`: accumulate octal digits until a space, failing on a non-octal byte or on a
   * digit at index 7 or later.
   */
  method ParseGitMode(i: seq<byte>) returns (r: Option<u16>)
    ensures r == ParseGitModeSpec(i)
  {
    var mode: u16 := 0;
    var idx := 0;
    while idx < |i|
      invariant 0 <= idx <= |i| && idx <= 7
      invariant forall j :: 0 <= j < idx ==> IsOctalDigit(i[j])
      invariant mode == OctalValue(i[..idx]) % U16_MODULUS
    {
      var b := i[idx];
      if b == SPACE {
        OctalPrefixLenAt(i, idx);
        return Some(mode);
      }
      if b < DIGIT_ZERO || b > DIGIT_SEVEN {
        OctalPrefixLenAt(i, idx);
        return None;
      }
      if idx > 6 {
        assert forall j :: 0 <= j <= idx ==> IsOctalDigit(i[j]);
        return None;
      }
      assert i[..idx + 1] == i[..idx] + [b];
      OctalValueSnoc(i[..idx], b);
      ShiftAddWraps(OctalValue(i[..idx]), b - DIGIT_ZERO);
      mode := (mode * 8) % U16_MODULUS + (b - DIGIT_ZERO);
      idx := idx + 1;
    }
    assert i[..idx] == i;
    OctalPrefixLenAt(i, idx);
    return Some(mode);
  }

  /** With no space in the input the whole input is the mode: the empty input is `Some(0)`. */
  lemma ParseGitModeOfEmpty()
    ensures ParseGitModeSpec([]) == Some(0)
  {
  }

  /** The parse stops at the first space: whatever follows it is ignored. */
  lemma ParseGitModeIgnoresRest(m: seq<byte>, rest: seq<byte>)
    requires SPACE !in m
    ensures ParseGitModeSpec(m + [SPACE] + rest) == ParseGitModeSpec(m)
  {
    var i := m + [SPACE] + rest;
    var k := OctalPrefixLen(m);
    assert i[..k] == m[..k];
    assert i[k] == if k < |m| then m[k] else SPACE;
    OctalPrefixLenAt(i, k);
  }

  /** A byte outside '0'..'7' before the first space makes the parse fail. */
  lemma ParseGitModeRejectsNonOctal(i: seq<byte>, j: nat)
    requires j < |i| && !IsOctalDigit(i[j]) && i[j] != SPACE
    requires SPACE !in i[..j]
    ensures ParseGitModeSpec(i) == None
  {
    assert forall l :: 0 <= l < j ==> i[l] != SPACE by {
      forall l | 0 <= l < j ensures i[l] != SPACE {
        assert i[..j][l] == i[l];
      }
    }
  }

  /** An eighth octal digit (a digit at index 7) makes the parse fail. */
  lemma ParseGitModeRejectsEighthDigit(i: seq<byte>)
    requires |i| >= 8 && AllOctal(i[..8])
    ensures ParseGitModeSpec(i) == None
  {
    assert forall j :: 0 <= j < 8 ==> IsOctalDigit(i[j]) by {
      forall j | 0 <= j < 8 ensures IsOctalDigit(i[j]) {
        assert i[..8][j] == i[j];
      }
    }
  }

  function Pow8(n: nat): nat {
    if n == 0 then 1 else 8 * Pow8(n - 1)
  }

  /** The leading digit bounds the value. */
  lemma {:induction false} OctalValueBound(s: seq<byte>)
    requires |s| >= 1 && AllOctal(s)
    ensures OctalValue(s) < (s[0] - DIGIT_ZERO + 1) * Pow8(|s| - 1)
  {
    if |s| > 1 {
      var p := s[..|s| - 1];
      assert p[0] == s[0];
      OctalValueBound(p);
      var d0 := s[0] - DIGIT_ZERO + 1;
      assert OctalValue(p) + 1 <= d0 * Pow8(|p| - 1);
      assert (OctalValue(p) + 1) * 8 <= d0 * Pow8(|p| - 1) * 8;
      assert Pow8(|s| - 1) == 8 * Pow8(|p| - 1);
    }
  }

  lemma Pow8AtMostFive(n: nat)
    requires n <= 5
    ensures Pow8(n) <= 0x8000
    decreases 5 - n
  {
    if n < 5 {
      Pow8AtMostFive(n + 1);
    }
  }

  lemma MulMono(a: int, b: int, c: nat)
    requires a <= b
    ensures a * c <= b * c
  {
  }

  /** A valid git mode always fits in a `u16`. */
  lemma OctalValueFits(s: seq<byte>)
    requires 1 <= |s| <= 6 && AllOctal(s)
    requires |s| <= 5 || s[0] <= DIGIT_ZERO + 1
    ensures OctalValue(s) < U16_MODULUS
  {
    var n := |s| - 1;
    OctalValueBound(s);
    if |s| <= 5 {
      MulMono(s[0] - DIGIT_ZERO + 1, 8, Pow8(n));
      Pow8AtMostFive(n + 1);
    } else {
      MulMono(s[0] - DIGIT_ZERO + 1, 2, Pow8(n));
      Pow8AtMostFive(n);
    }
  }

  /**
   * At most five octal digits, or six whose leading digit is at most one: the parsed value is
   * exactly the octal number.
   */
  lemma ParseGitModeIsOctalValue(s: seq<byte>)
    requires 1 <= |s| <= 6 && AllOctal(s)
    requires |s| <= 5 || s[0] <= DIGIT_ZERO + 1
    ensures OctalValue(s) < U16_MODULUS
    ensures ParseGitModeSpec(s) == Some(OctalValue(s))
  {
    OctalValueFits(s);
    ParseGitModeOfDigits(s);
    ModOfMultiple(OctalValue(s), 0, OctalValue(s));
  }

  /** An input of at most seven digits and nothing else is read whole, folded into 16 bits. */
  lemma ParseGitModeOfDigits(s: seq<byte>)
    requires |s| <= 7 && AllOctal(s)
    ensures ParseGitModeSpec(s) == Some(OctalValue(s) % U16_MODULUS)
  {
    OctalPrefixLenAt(s, |s|);
    assert s[..|s|] == s;
  }

  /** The source's own example: the tree mode with its leading zero reads as 0o40000 ... */
  lemma ParseGitModeTreeWithZero()
    ensures ParseGitModeSpec(Ascii("040000")) == Some(0x4000)
  {
    var s := Ascii("040000");
    TreeWithZeroValue(s);
    ParseGitModeOfDigits(s);
  }

  /** The digits "040000" denote 0o40000. */
  lemma TreeWithZeroValue(s: seq<byte>)
    requires s == Ascii("040000")
    ensures AllOctal(s) && OctalValue(s) == 0x4000
  {
    assert s[..0] == [];
    OctalValueStep(s, 0);
    assert OctalValue(s[..1]) == 0;
    OctalValueStep(s, 1);
    assert OctalValue(s[..2]) == 0x4;
    OctalValueStep(s, 2);
    assert OctalValue(s[..3]) == 0x20;
    OctalValueStep(s, 3);
    assert OctalValue(s[..4]) == 0x100;
    OctalValueStep(s, 4);
    assert OctalValue(s[..5]) == 0x800;
    OctalValueStep(s, 5);
    assert s[..6] == s;
    assert OctalValue(s) == 0x4000;
  }

  /** ... and so does the five digit spelling git writes. */
  lemma ParseGitModeTreeWithoutZero()
    ensures ParseGitModeSpec(Ascii("40000")) == Some(0x4000)
  {
    var s := Ascii("40000");
    TreeWithoutZeroValue(s);
    ParseGitModeOfDigits(s);
  }

  /** The digits "40000" denote 0o40000. */
  lemma TreeWithoutZeroValue(s: seq<byte>)
    requires s == Ascii("40000")
    ensures AllOctal(s) && OctalValue(s) == 0x4000
  {
    assert s[..0] == [];
    OctalValueStep(s, 0);
    assert OctalValue(s[..1]) == 0x4;
    OctalValueStep(s, 1);
    assert OctalValue(s[..2]) == 0x20;
    OctalValueStep(s, 2);
    assert OctalValue(s[..3]) == 0x100;
    OctalValueStep(s, 3);
    assert OctalValue(s[..4]) == 0x800;
    OctalValueStep(s, 4);
    assert s[..5] == s;
    assert OctalValue(s) == 0x4000;
  }

  /**
   * As written, the guard `idx > 6` lets a seventh digit through although the comment beside it
   * calls more than six digits malformed; the seventh digit is then folded into 16 bits.
   */
  lemma ParseGitModeAcceptsSevenDigits()
    ensures ParseGitModeSpec(Ascii("1000000")) == Some(0)
  {
    var s := Ascii("1000000");
    SevenDigitValue(s);
    ParseGitModeOfDigits(s);
  }

  /** "1000000" denotes 0o1000000, one more bit than 16 hold. */
  lemma SevenDigitValue(s: seq<byte>)
    requires s == Ascii("1000000")
    ensures AllOctal(s) && OctalValue(s) == 0x40000
  {
    assert s[..0] == [];
    OctalValueStep(s, 0);
    assert OctalValue(s[..1]) == 1;
    OctalValueStep(s, 1);
    assert OctalValue(s[..2]) == 0x8;
    OctalValueStep(s, 2);
    assert OctalValue(s[..3]) == 0x40;
    OctalValueStep(s, 3);
    assert OctalValue(s[..4]) == 0x200;
    OctalValueStep(s, 4);
    assert OctalValue(s[..5]) == 0x1000;
    OctalValueStep(s, 5);
    assert OctalValue(s[..6]) == 0x8000;
    OctalValueStep(s, 6);
    assert s[..7] == s;
  }

  /** `parse_git_mode` with the evidently intended limit: more than six octal digits are malformed. */
  function ParseGitModeFixed(i: seq<byte>): (r: Option<u16>)
    ensures r.Some? ==> OctalPrefixLen(i) <= 6
    ensures OctalPrefixLen(i) <= 6 ==> r == ParseGitModeSpec(i)
  {
    var k := OctalPrefixLen(i);
    if k > 6 then None
    else if k < |i| && i[k] != SPACE then None
    else Some(OctalValue(i[..k]) % U16_MODULUS)
  }

  /** The corrected parser refuses the seven digit input that the code as written accepts. */
  lemma ParseGitModeFixedRejectsSevenDigits()
    ensures ParseGitModeFixed(Ascii("1000000")) == None
  {
    var s := Ascii("1000000");
    assert s[..7] == s;
    OctalPrefixLenAt(s, 7);
  }

  /** `split_once`: split at the first occurrence of `value`. */
  function SplitOnce(s: seq<byte>, value: byte): (r: Option<(seq<byte>, seq<byte>)>)
    ensures r.None? <==> value !in s
    ensures r.Some? ==> r.value.0 + [value] + r.value.1 == s && value !in r.value.0
  {
    if s == [] then None
    else if s[0] == value then Some(([], s[1..]))
    else
      match SplitOnce(s[1..], value)
      case None => None
      case Some((first, second)) =>
        assert [s[0]] + first + [value] + second == s;
        Some(([s[0]] + first, second))
  }

  /** The split is unique: it happens at the first occurrence. */
  lemma {:induction false} SplitOnceAtFirst(first: seq<byte>, value: byte, second: seq<byte>)
    requires value !in first
    ensures SplitOnce(first + [value] + second, value) == Some((first, second))
  {
    var s := first + [value] + second;
    if first == [] {
      assert s[0] == value && s[1..] == second;
    } else {
      assert s[0] == first[0];
      assert s[1..] == first[1..] + [value] + second;
      SplitOnceAtFirst(first[1..], value, second);
      assert [s[0]] + first[1..] == first;
    }
  }

  /**
   * `extract_git_mode`: the mode part before the first space, parsed by `parse_git_mode` as
   * written, and what follows the space, which must not be empty.
   */
  function ExtractGitMode(i: seq<byte>): (r: Option<(u16, (seq<byte>, seq<byte>))>)
    ensures r.Some? ==> r.value.1.0 + [SPACE] + r.value.1.1 == i && SPACE !in r.value.1.0
    ensures r.Some? ==> r.value.1.1 != [] && ParseGitModeSpec(r.value.1.0) == Some(r.value.0)
    ensures SPACE !in i ==> r.None?
  {
    match SplitOnce(i, SPACE)
    case None => None
    case Some((modeSlice, restSlice)) =>
      if restSlice == [] then None
      else
        match ParseGitModeSpec(modeSlice)
        case None => None
        case Some(mode) => Some((mode, (modeSlice, restSlice)))
  }

  /**
   * Every input holding a space splits at its first one: an entry is read exactly when a name
   * follows the space and the mode part parses, and it is that mode with both parts.
   */
  lemma ExtractGitModeOfEntry(m: seq<byte>, rest: seq<byte>)
    requires SPACE !in m
    ensures ExtractGitMode(m + [SPACE] + rest).Some? <==> rest != [] && ParseGitModeSpec(m).Some?
    ensures ExtractGitMode(m + [SPACE] + rest).Some? ==>
      ExtractGitMode(m + [SPACE] + rest) == Some((ParseGitModeSpec(m).value, (m, rest)))
  {
    SplitOnceAtFirst(m, SPACE, rest);
  }

  /** Nothing after the first space: no entry. */
  lemma ExtractGitModeNeedsRest(m: seq<byte>)
    requires SPACE !in m
    ensures ExtractGitMode(m + [SPACE]) == None
  {
    SplitOnceAtFirst(m, SPACE, []);
    assert m + [SPACE] + [] == m + [SPACE];
  }

  /** `extract_git_mode` on top of the corrected parser. */
  function ExtractGitModeFixed(i: seq<byte>): (r: Option<(u16, (seq<byte>, seq<byte>))>)
    ensures r.Some? ==> r.value.1.0 + [SPACE] + r.value.1.1 == i && SPACE !in r.value.1.0
    ensures r.Some? ==> r.value.1.1 != [] && ParseGitModeFixed(r.value.1.0) == Some(r.value.0)
    ensures r.Some? ==> OctalPrefixLen(r.value.1.0) <= 6
    ensures SPACE !in i ==> r.None?
  {
    match SplitOnce(i, SPACE)
    case None => None
    case Some((modeSlice, restSlice)) =>
      if restSlice == [] then None
      else
        match ParseGitModeFixed(modeSlice)
        case None => None
        case Some(mode) => Some((mode, (modeSlice, restSlice)))
  }

  /** The corrected extraction agrees with the one as written on every mode of at most six digits. */
  lemma ExtractGitModeFixedOfEntry(m: seq<byte>, rest: seq<byte>)
    requires SPACE !in m
    ensures ExtractGitModeFixed(m + [SPACE] + rest).Some? <==> rest != [] && ParseGitModeFixed(m).Some?
    ensures OctalPrefixLen(m) <= 6 ==> ExtractGitModeFixed(m + [SPACE] + rest) == ExtractGitMode(m + [SPACE] + rest)
  {
    SplitOnceAtFirst(m, SPACE, rest);
  }

  /** As written, the entry "1000000 a" is read with mode 0; the corrected extraction rejects it. */
  lemma ExtractGitModeAcceptsSevenDigits()
    ensures ExtractGitMode(Ascii("1000000 a")) == Some((0, (Ascii("1000000"), Ascii("a"))))
    ensures ExtractGitModeFixed(Ascii("1000000 a")) == None
  {
    var i := Ascii("1000000 a");
    var m := Ascii("1000000");
    assert i == m + [SPACE] + Ascii("a");
    SplitOnceAtFirst(m, SPACE, Ascii("a"));
    ParseGitModeAcceptsSevenDigits();
    ParseGitModeFixedRejectsSevenDigits();
  }

  /** The regular file mode reads as 0o100644 with either parser. */
  lemma ParseGitModeBlob()
    ensures ParseGitModeSpec(Ascii("100644")) == Some(0x81A4)
    ensures ParseGitModeFixed(Ascii("100644")) == Some(0x81A4)
  {
    var m := Ascii("100644");
    BlobValue(m);
    ParseGitModeOfDigits(m);
    OctalPrefixLenAt(m, 6);
  }

  /** The digits "100644" denote 0o100644. */
  lemma BlobValue(m: seq<byte>)
    requires m == Ascii("100644")
    ensures AllOctal(m) && OctalValue(m) == 0x81A4
  {
    assert m[..0] == [];
    OctalValueStep(m, 0);
    assert OctalValue(m[..1]) == 0x1;
    OctalValueStep(m, 1);
    assert OctalValue(m[..2]) == 0x8;
    OctalValueStep(m, 2);
    assert OctalValue(m[..3]) == 0x40;
    OctalValueStep(m, 3);
    assert OctalValue(m[..4]) == 0x206;
    OctalValueStep(m, 4);
    assert OctalValue(m[..5]) == 0x1034;
    OctalValueStep(m, 5);
    assert m[..6] == m;
    assert OctalValue(m) == 0x81A4;
  }

  /** A tree entry's mode and name: "100644 a" yields 0o100644 and the name. */
  lemma ExtractGitModeExample()
    ensures ExtractGitMode(Ascii("100644 a")) == Some((0x81A4, (Ascii("100644"), Ascii("a"))))
  {
    var i := Ascii("100644 a");
    var m := Ascii("100644");
    assert i == m + [SPACE] + Ascii("a");
    SplitOnceAtFirst(m, SPACE, Ascii("a"));
    ParseGitModeBlob();
  }

  /**
   * `EntryKind`, the five well-known kinds of tree entries.
   */
  datatype EntryKind = Tree | Blob | BlobExecutable | Link | Commit

  /** The `#[repr(u16)]` discriminant of each kind: its canonical mode. */
  function KindValue(k: EntryKind): u16 {
    match k
    case Tree => 0x4000            // 0o040000
    case Blob => 0x81A4            // 0o100644
    case BlobExecutable => 0x81ED  // 0o100755
    case Link => 0xA000            // 0o120000
    case Commit => 0xE000          // 0o160000
  }

  /** `IFMT`, 0o170000. */
  const IFMT: u16 := 0xF000

  /** `mode & IFMT`: a 16 bit mode keeps its top four bits. */
  function FileType(mode: u16): u16 {
    (mode / 0x1000) * 0x1000
  }

  /** `mode & 0o000100 == 0o000100`. */
  predicate ExecutableBit(mode: u16) {
    (mode / 0x40) % 2 == 1
  }

  /** `parse_entry_kind_from_value`. */
  function ParseEntryKindFromValue(mode: u16): (k: EntryKind)
    ensures k == Tree <==> FileType(mode) == KindValue(Tree)
    ensures k == Link <==> FileType(mode) == KindValue(Link)
    ensures k == Blob || k == BlobExecutable <==> FileType(mode) == 0x8000
    ensures k == BlobExecutable <==> FileType(mode) == 0x8000 && ExecutableBit(mode)
    ensures k != Commit ==> FileType(KindValue(k)) == FileType(mode)
  {
    var etype := FileType(mode);
    if etype == 0x8000 then (if ExecutableBit(mode) then BlobExecutable else Blob)  // 0o100000
    else if etype == KindValue(Link) then Link
    else if etype == KindValue(Tree) then Tree
    else Commit
  }

  /** `EntryKind::as_octal_bytes`. */
  function AsOctalBytes(k: EntryKind): (r: seq<byte>)
    ensures |r| == if k == Tree then 5 else 6
    ensures forall j :: 0 <= j < |r| ==> IsOctalDigit(r[j])
  {
    match k
    case Tree => Ascii("40000")
    case Blob => Ascii("100644")
    case BlobExecutable => Ascii("100755")
    case Link => Ascii("120000")
    case Commit => Ascii("160000")
  }

  /** `EntryKind::as_descriptive_str`. */
  function AsDescriptiveStr(k: EntryKind): (s: string)
    ensures s == "tree" <==> k == Tree
    ensures s == "blob" <==> k == Blob
    ensures s == "exe" <==> k == BlobExecutable
    ensures s == "link" <==> k == Link
    ensures s == "commit" <==> k == Commit
  {
    match k
    case Tree => "tree"
    case Blob => "blob"
    case BlobExecutable => "exe"
    case Link => "link"
    case Commit => "commit"
  }

  /** Every kind has its own description. */
  lemma DescriptiveStrInjective(a: EntryKind, b: EntryKind)
    requires AsDescriptiveStr(a) == AsDescriptiveStr(b)
    ensures a == b
  {
  }

  /** The six byte backing buffer of an `EntryMode`. */
  type Representation = s: seq<byte> | |s| == 6 witness [0x20, 0x20, 0x20, 0x20, 0x20, 0x20]

  /** `EntryMode`: the raw mode and its octal spelling, padded with spaces. */
  datatype EntryMode = EntryMode(value: u16, gitRepresentation: Representation)

  /** `s` followed by spaces up to six bytes. */
  function Padded(s: seq<byte>): Representation
    requires |s| <= 6
  {
    s + seq(6 - |s|, _ => SPACE)
  }

  /** The value of `From<EntryKind> for EntryMode`. */
  function KindMode(k: EntryKind): EntryMode {
    EntryMode(KindValue(k), Padded(AsOctalBytes(k)))
  }

  /** `From<EntryKind> for EntryMode`: fill a buffer of spaces, then copy the octal spelling in front. */
  method EntryModeFromKind(k: EntryKind) returns (m: EntryMode)
    ensures m == KindMode(k)
  {
    var representation := new byte[6](_ => SPACE);
    var octal := AsOctalBytes(k);
    forall j | 0 <= j < |octal| {
      representation[j] := octal[j];
    }
    assert representation[..] == Padded(octal);
    m := EntryMode(KindValue(k), representation[..]);
  }

  /** `EntryMode::kind`. */
  function Kind(m: EntryMode): (k: EntryKind)
    ensures k != Commit ==> FileType(KindValue(k)) == FileType(m.value)
    ensures k == BlobExecutable ==> ExecutableBit(m.value)
    ensures k == Commit ==> FileType(m.value) != 0x4000 && FileType(m.value) != 0x8000 && FileType(m.value) != 0xA000
  {
    ParseEntryKindFromValue(m.value)
  }

  // Each `is_*` predicate, read off the file type bits of the raw mode.

  predicate IsCommit(m: EntryMode)
    ensures IsCommit(m) <==> FileType(m.value) != 0x4000 && FileType(m.value) != 0x8000 && FileType(m.value) != 0xA000
  {
    Kind(m) == Commit
  }

  predicate IsLink(m: EntryMode)
    ensures IsLink(m) <==> FileType(m.value) == 0xA000  // 0o120000
  {
    Kind(m) == Link
  }

  predicate IsTree(m: EntryMode)
    ensures IsTree(m) <==> FileType(m.value) == 0x4000  // 0o040000
  {
    Kind(m) == Tree
  }

  predicate IsNoTree(m: EntryMode)
    ensures IsNoTree(m) <==> FileType(m.value) != 0x4000
  {
    Kind(m) != Tree
  }

  predicate IsBlob(m: EntryMode)
    ensures IsBlob(m) <==> FileType(m.value) == 0x8000  // 0o100000
  {
    Kind(m) == Blob || Kind(m) == BlobExecutable
  }

  predicate IsExecutable(m: EntryMode)
    ensures IsExecutable(m) <==> FileType(m.value) == 0x8000 && ExecutableBit(m.value)
  {
    Kind(m) == BlobExecutable
  }

  predicate IsBlobOrSymlink(m: EntryMode)
    ensures IsBlobOrSymlink(m) <==> FileType(m.value) == 0x8000 || FileType(m.value) == 0xA000
  {
    Kind(m) == Blob || Kind(m) == BlobExecutable || Kind(m) == Link
  }

  /** The predicates partition the kinds as their names say. */
  lemma PredicatesAgreeWithKind(m: EntryMode)
    ensures IsNoTree(m) == !IsTree(m)
    ensures IsExecutable(m) ==> IsBlob(m)
    ensures IsBlobOrSymlink(m) == (IsBlob(m) || IsLink(m))
    ensures IsCommit(m) == !(IsTree(m) || IsBlobOrSymlink(m))
  {
  }

  /** `From<u16> for EntryMode`: any raw value is canonicalised through its kind. */
  function EntryModeFromU16(value: u16): (m: EntryMode)
    ensures Kind(m) == ParseEntryKindFromValue(value)
    ensures m.value == KindValue(Kind(m)) && m.gitRepresentation == Padded(AsOctalBytes(Kind(m)))
    ensures Kind(m) != Commit ==> FileType(m.value) == FileType(value)
  {
    KindOfKindMode(ParseEntryKindFromValue(value));
    KindMode(ParseEntryKindFromValue(value))
  }

  /** Classifying the canonical mode of a kind gives that kind back. */
  lemma KindOfKindMode(k: EntryKind)
    ensures Kind(KindMode(k)) == k
    ensures ParseEntryKindFromValue(KindValue(k)) == k
  {
  }

  /** Only five modes come out of `From<u16>`, each the canonical mode of its own kind, and converting again changes nothing. */
  lemma EntryModeFromU16IsCanonical(value: u16)
    ensures Kind(EntryModeFromU16(value)) == ParseEntryKindFromValue(value)
    ensures EntryModeFromU16(value) == KindMode(Kind(EntryModeFromU16(value)))
    ensures EntryModeFromU16(EntryModeFromU16(value).value) == EntryModeFromU16(value)
  {
    KindOfKindMode(ParseEntryKindFromValue(value));
  }

  /** The expectations of the `is_methods` test. */
  lemma KindTestVectors()
    ensures IsBlob(KindMode(Blob)) && !IsLink(KindMode(Blob)) && IsBlobOrSymlink(KindMode(Blob))
    ensures IsBlob(EntryModeFromU16(0x81A5)) && Kind(EntryModeFromU16(0x81A5)) == Blob        // 0o100645
    ensures !IsExecutable(EntryModeFromU16(0x81BD))                                           // 0o100675
    ensures IsExecutable(EntryModeFromU16(0x81C0)) && Kind(EntryModeFromU16(0x81C0)) == BlobExecutable  // 0o100700
    ensures IsBlob(KindMode(BlobExecutable)) && IsExecutable(KindMode(BlobExecutable))
    ensures IsBlobOrSymlink(KindMode(BlobExecutable))
    ensures !IsBlob(KindMode(Link)) && IsLink(KindMode(Link)) && IsBlobOrSymlink(KindMode(Link))
    ensures IsLink(EntryModeFromU16(0xA29C)) && Kind(EntryModeFromU16(0xA29C)) == Link        // 0o121234
    ensures IsTree(KindMode(Tree))
    ensures IsTree(EntryModeFromU16(0x4041)) && Kind(EntryModeFromU16(0x4041)) == Tree        // 0o040101
    ensures IsCommit(KindMode(Commit))
    ensures IsCommit(EntryModeFromU16(0xEE54)) && Kind(EntryModeFromU16(0xEE54)) == Commit    // 0o167124
    ensures Kind(EntryModeFromU16(0)) == Commit
  {
  }

  /** `TryFrom<u32> for EntryMode`: the three exact modes and anything with bit 0o100000 are accepted. */
  function TryFromU32(mode: u32): (r: Result<EntryMode, u32>)
    ensures r.Ok? <==> mode == 0x4000 || mode == 0xA000 || mode == 0xE000 || (mode / 0x8000) % 2 == 1
    ensures r.Err? ==> r.error == mode
    ensures r.Ok? ==> r.value == EntryModeFromU16(mode % U16_MODULUS)
  {
    if mode == 0x4000 || mode == 0xA000 || mode == 0xE000 then Ok(EntryModeFromU16(mode % U16_MODULUS))  // 0o40000 | 0o120000 | 0o160000
    else if (mode / 0x8000) % 2 == 1 then Ok(EntryModeFromU16(mode % U16_MODULUS))                     // & 0o100000
    else Err(mode)
  }

  /**
   * The exact modes keep their kind and every accepted mode comes out canonical. Bit 0o100000 alone
   * does not make a blob: 0o170000 is accepted and classified as a commit.
   */
  lemma TryFromU32Kinds(mode: u32)
    ensures mode == 0x4000 ==> TryFromU32(mode) == Ok(KindMode(Tree))
    ensures mode == 0xF000 ==> TryFromU32(mode) == Ok(KindMode(Commit))
    ensures mode == 0xA000 ==> TryFromU32(mode) == Ok(KindMode(Link))
    ensures mode == 0xE000 ==> TryFromU32(mode) == Ok(KindMode(Commit))
    ensures TryFromU32(mode).Ok? ==> TryFromU32(mode).value == KindMode(Kind(TryFromU32(mode).value))
  {
    EntryModeFromU16IsCanonical(mode % U16_MODULUS);
  }

  /** Position of the first space. */
  function SpacePosition(s: seq<byte>): (r: Option<nat>)
    ensures r.None? <==> SPACE !in s
    ensures r.Some? ==> r.value < |s| && s[r.value] == SPACE
    ensures r.Some? ==> forall j :: 0 <= j < r.value ==> s[j] != SPACE
  {
    if s == [] then None
    else if s[0] == SPACE then Some(0)
    else
      match SpacePosition(s[1..])
      case None => None
      case Some(p) => Some(p + 1)
  }

  /** `EntryMode::len`: the significant bytes end at the first space, or fill the buffer. */
  function Len(m: EntryMode): (n: nat)
    ensures n <= 6
    ensures forall j :: 0 <= j < n ==> m.gitRepresentation[j] != SPACE
    ensures n < 6 ==> m.gitRepresentation[n] == SPACE
  {
    match SpacePosition(m.gitRepresentation)
    case Some(delim) => delim
    case None => 6
  }

  /** `EntryMode::as_bytes`. */
  function AsBytes(m: EntryMode): (r: seq<byte>)
    ensures |r| <= 6 && r == m.gitRepresentation[..|r|]
    ensures SPACE !in r
    ensures |r| < 6 ==> m.gitRepresentation[|r|] == SPACE
  {
    m.gitRepresentation[..Len(m)]
  }

  /** The significant prefix of a padded buffer is what was padded, when that holds no space. */
  lemma LenOfPadded(s: seq<byte>, m: EntryMode)
    requires |s| <= 6 && SPACE !in s && m.gitRepresentation == Padded(s)
    ensures Len(m) == |s|
  {
    assert |s| < 6 ==> m.gitRepresentation[|s|] == SPACE;
    assert forall j :: 0 <= j < |s| ==> m.gitRepresentation[j] == s[j];
  }

  /** For a mode built from a kind, `as_bytes` is the kind's octal spelling: five bytes for a tree, six otherwise. */
  lemma AsBytesOfKindMode(k: EntryKind)
    ensures AsBytes(KindMode(k)) == AsOctalBytes(k)
    ensures |AsBytes(KindMode(k))| == if k == Tree then 5 else 6
  {
    var octal := AsOctalBytes(k);
    assert SPACE !in octal;
    LenOfPadded(octal, KindMode(k));
    assert Padded(octal)[..|octal|] == octal;
  }

  /** The octal spelling each kind writes parses back, with `parse_git_mode`, to the kind's value. */
  lemma AsOctalBytesParses(k: EntryKind)
    ensures ParseGitModeSpec(AsOctalBytes(k)) == Some(KindValue(k))
    ensures ParseGitModeFixed(AsOctalBytes(k)) == Some(KindValue(k))
  {
    var s := AsOctalBytes(k);
    match k {
      case Tree => TreeWithoutZeroValue(s);
      case Blob => BlobValue(s);
      case BlobExecutable => ExecutableValue(s);
      case Link => LinkValue(s);
      case Commit => CommitValue(s);
    }
    ParseGitModeOfDigits(s);
    OctalPrefixLenAt(s, |s|);
  }

  /** The digits "100755" denote 0o100755. */
  lemma ExecutableValue(s: seq<byte>)
    requires s == Ascii("100755")
    ensures AllOctal(s) && OctalValue(s) == 0x81ED
  {
    assert s[..0] == [];
    OctalValueStep(s, 0);
    assert OctalValue(s[..1]) == 0x1;
    OctalValueStep(s, 1);
    assert OctalValue(s[..2]) == 0x8;
    OctalValueStep(s, 2);
    assert OctalValue(s[..3]) == 0x40;
    OctalValueStep(s, 3);
    assert OctalValue(s[..4]) == 0x207;
    OctalValueStep(s, 4);
    assert OctalValue(s[..5]) == 0x103D;
    OctalValueStep(s, 5);
    assert s[..6] == s;
    assert OctalValue(s) == 0x81ED;
  }

  /** The digits "120000" denote 0o120000. */
  lemma LinkValue(s: seq<byte>)
    requires s == Ascii("120000")
    ensures AllOctal(s) && OctalValue(s) == 0xA000
  {
    assert s[..0] == [];
    OctalValueStep(s, 0);
    assert OctalValue(s[..1]) == 0x1;
    OctalValueStep(s, 1);
    assert OctalValue(s[..2]) == 0xA;
    OctalValueStep(s, 2);
    assert OctalValue(s[..3]) == 0x50;
    OctalValueStep(s, 3);
    assert OctalValue(s[..4]) == 0x280;
    OctalValueStep(s, 4);
    assert OctalValue(s[..5]) == 0x1400;
    OctalValueStep(s, 5);
    assert s[..6] == s;
    assert OctalValue(s) == 0xA000;
  }

  /** The digits "160000" denote 0o160000. */
  lemma CommitValue(s: seq<byte>)
    requires s == Ascii("160000")
    ensures AllOctal(s) && OctalValue(s) == 0xE000
  {
    assert s[..0] == [];
    OctalValueStep(s, 0);
    assert OctalValue(s[..1]) == 0x1;
    OctalValueStep(s, 1);
    assert OctalValue(s[..2]) == 0xE;
    OctalValueStep(s, 2);
    assert OctalValue(s[..3]) == 0x70;
    OctalValueStep(s, 3);
    assert OctalValue(s[..4]) == 0x380;
    OctalValueStep(s, 4);
    assert OctalValue(s[..5]) == 0x1C00;
    OctalValueStep(s, 5);
    assert s[..6] == s;
    assert OctalValue(s) == 0xE000;
  }
}
