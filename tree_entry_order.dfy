/**
 * The order of tree entries, `Ord for EntryRef` and `Ord for Entry` in gix-object/src/tree/mod.rs.
 * Both impls have the same body, so one `Entry` datatype and one `Cmp` stand for both.
 *
 * git sorts a tree's entries as if the name of every subtree ended in '/'. The comparison does so
 * without building that name: equal common prefixes are settled by the byte that follows, where an
 * exhausted tree name supplies a virtual '/' and an exhausted non-tree name nothing at all.
 */
module TreeEntryOrder {
  import opened Base
  import opened TreeEntryMode

  const SLASH: byte := 0x2F

  datatype Ordering = Less | Equal | Greater

  function Reverse(o: Ordering): Ordering {
    match o
    case Less => Greater
    case Equal => Equal
    case Greater => Less
  }

  /** A tree entry; `oid` is the raw id of the object it points to. */
  datatype Entry = Entry(mode: EntryMode, filename: seq<byte>, oid: seq<byte>)

  /** `Ord for [u8]`: bytewise, and a proper prefix comes first. */
  function LexCompare(a: seq<byte>, b: seq<byte>): Ordering {
    if a == [] then (if b == [] then Equal else Less)
    else if b == [] then Greater
    else if a[0] < b[0] then Less
    else if a[0] > b[0] then Greater
    else LexCompare(a[1..], b[1..])
  }

  /** `Ord for Option<&u8>`: `None` before any byte. */
  function CompareNext(a: Option<byte>, b: Option<byte>): Ordering {
    match (a, b)
    case (None, None) => Equal
    case (None, Some(_)) => Less
    case (Some(_), None) => Greater
    case (Some(x), Some(y)) => if x < y then Less else if x > y then Greater else Equal
  }

  /** The byte after the common prefix: the next name byte, else '/' for a tree, else nothing. */
  function NextByte(e: Entry, common: nat): Option<byte> {
    if common < |e.filename| then Some(e.filename[common])
    else if IsTree(e.mode) then Some(SLASH)
    else None
  }

  function Min(a: nat, b: nat): nat {
    if a <= b then a else b
  }

  /**
   * `Entry::cmp` / `EntryRef::cmp`. Two entries of the same name are equal when both or neither
   * are trees, and the tree comes last otherwise; a name that opens the other sorts first as a
   * non-tree, and as a tree by '/' against the other name's next byte.
   */
  function Cmp(a: Entry, b: Entry): (r: Ordering)
    ensures a.filename == b.filename ==> (r == Equal <==> IsTree(a.mode) == IsTree(b.mode))
    ensures a.filename == b.filename && IsTree(a.mode) && !IsTree(b.mode) ==> r == Greater
    ensures |a.filename| < |b.filename| && a.filename == b.filename[..|a.filename|] ==>
      (r == Less <==> !IsTree(a.mode) || SLASH < b.filename[|a.filename|])
  {
    var common := Min(|a.filename|, |b.filename|);
    LexCompareEqual(a.filename[..common], b.filename[..common]);
    var head := LexCompare(a.filename[..common], b.filename[..common]);
    if head != Equal then head
    else CompareNext(NextByte(a, common), NextByte(b, common))
  }

  /** The name git sorts by: a tree's name with '/' appended. */
  function SortKey(e: Entry): seq<byte> {
    e.filename + (if IsTree(e.mode) then [SLASH] else [])
  }

  /** Names as git stores them in a tree: no '/' inside. */
  predicate PlainName(e: Entry) {
    SLASH !in e.filename
  }

  lemma {:induction false} LexCompareEqual(a: seq<byte>, b: seq<byte>)
    ensures LexCompare(a, b) == Equal <==> a == b
  {
    if a != [] && b != [] && a[0] == b[0] {
      LexCompareEqual(a[1..], b[1..]);
      assert a == [a[0]] + a[1..] && b == [b[0]] + b[1..];
    }
  }

  lemma {:induction false} LexCompareAntisymmetric(a: seq<byte>, b: seq<byte>)
    ensures LexCompare(a, b) == Reverse(LexCompare(b, a))
  {
    if a != [] && b != [] && a[0] == b[0] {
      LexCompareAntisymmetric(a[1..], b[1..]);
    }
  }

  lemma {:induction false} LexCompareTransitive(a: seq<byte>, b: seq<byte>, c: seq<byte>)
    requires LexCompare(a, b) == Less && LexCompare(b, c) == Less
    ensures LexCompare(a, c) == Less
  {
    if a != [] && b != [] && c != [] && a[0] == b[0] && b[0] == c[0] {
      LexCompareTransitive(a[1..], b[1..], c[1..]);
    }
  }

  /** A common prefix does not change the comparison. */
  lemma {:induction false} LexCompareCommonPrefix(p: seq<byte>, s: seq<byte>, t: seq<byte>)
    ensures LexCompare(p + s, p + t) == LexCompare(s, t)
  {
    if p != [] {
      var a, b := p + s, p + t;
      assert a[0] == p[0] == b[0];
      assert a[1..] == p[1..] + s && b[1..] == p[1..] + t;
      LexCompareCommonPrefix(p[1..], s, t);
      assert LexCompare(a, b) == LexCompare(a[1..], b[1..]);
    } else {
      assert p + s == s && p + t == t;
    }
  }

  /** Two equally long prefixes that differ settle the comparison, whatever follows them. */
  lemma {:induction false} LexCompareDecidedPrefix(x: seq<byte>, y: seq<byte>, s: seq<byte>, t: seq<byte>)
    requires |x| == |y| && LexCompare(x, y) != Equal
    ensures LexCompare(x + s, y + t) == LexCompare(x, y)
  {
    if x[0] == y[0] {
      assert (x + s)[1..] == x[1..] + s && (y + t)[1..] == y[1..] + t;
      LexCompareDecidedPrefix(x[1..], y[1..], s, t);
    }
  }

  /** The order is antisymmetric: swapping the operands reverses the answer. */
  lemma CmpAntisymmetric(a: Entry, b: Entry)
    ensures Cmp(a, b) == Reverse(Cmp(b, a))
  {
    var common := Min(|a.filename|, |b.filename|);
    LexCompareAntisymmetric(a.filename[..common], b.filename[..common]);
  }

  /** Only the names and whether each entry is a tree take part: the id and the other mode bits do not. */
  lemma CmpIgnoresIdAndModeBits(a: Entry, b: Entry, a': Entry, b': Entry)
    requires a.filename == a'.filename && IsTree(a.mode) == IsTree(a'.mode)
    requires b.filename == b'.filename && IsTree(b.mode) == IsTree(b'.mode)
    ensures Cmp(a, b) == Cmp(a', b')
  {
  }

  /** For plain names the comparison is the bytewise order of the sort keys, the order git defines. */
  lemma CmpIsSortKeyOrder(a: Entry, b: Entry)
    requires PlainName(a) && PlainName(b)
    ensures Cmp(a, b) == LexCompare(SortKey(a), SortKey(b))
  {
    var common := Min(|a.filename|, |b.filename|);
    var x, y := a.filename[..common], b.filename[..common];
    var s, t := SortKey(a)[common..], SortKey(b)[common..];
    assert SortKey(a) == x + s && SortKey(b) == y + t;
    if LexCompare(x, y) != Equal {
      LexCompareDecidedPrefix(x, y, s, t);
    } else {
      LexCompareEqual(x, y);
      LexCompareCommonPrefix(x, s, t);
      // past the common prefix at most one name goes on; the other contributes '/' or nothing
      if common < |a.filename| {
        assert s[0] == a.filename[common] != SLASH;
      }
      if common < |b.filename| {
        assert t[0] == b.filename[common] != SLASH;
      }
    }
  }

  /** For plain names the order is transitive. */
  lemma CmpTransitive(a: Entry, b: Entry, c: Entry)
    requires PlainName(a) && PlainName(b) && PlainName(c)
    requires Cmp(a, b) == Less && Cmp(b, c) == Less
    ensures Cmp(a, c) == Less
  {
    CmpIsSortKeyOrder(a, b);
    CmpIsSortKeyOrder(b, c);
    CmpIsSortKeyOrder(a, c);
    LexCompareTransitive(SortKey(a), SortKey(b), SortKey(c));
  }

  /** For plain names, two entries compare equal exactly when their names agree and both or neither are trees. */
  lemma CmpEqualIff(a: Entry, b: Entry)
    requires PlainName(a) && PlainName(b)
    ensures Cmp(a, b) == Equal <==> a.filename == b.filename && IsTree(a.mode) == IsTree(b.mode)
  {
    CmpIsSortKeyOrder(a, b);
    LexCompareEqual(SortKey(a), SortKey(b));
    if SortKey(a) == SortKey(b) {
      assert a.filename == SortKey(a)[..|a.filename|] == SortKey(b)[..|b.filename|] == b.filename;
    }
  }

  /**
   * The virtual '/': a tree named "a" sorts after a blob named "a.b" ('/' is above '.') but
   * before a blob named "a0"; as a blob it would sort before both.
   */
  lemma CmpVirtualSlashExamples(tree: EntryMode, blob: EntryMode, id: seq<byte>)
    requires IsTree(tree) && !IsTree(blob)
    ensures Cmp(Entry(tree, [0x61], id), Entry(blob, [0x61, 0x2E, 0x62], id)) == Greater
    ensures Cmp(Entry(tree, [0x61], id), Entry(blob, [0x61, 0x30], id)) == Less
    ensures Cmp(Entry(blob, [0x61], id), Entry(blob, [0x61, 0x2E, 0x62], id)) == Less
  {
    var a: seq<byte> := [0x61];
    assert a[..1] == a;
    assert [0x61, 0x2E, 0x62][..1] == a;
    assert [0x61, 0x30][..1] == a;
    LexCompareEqual(a, a);
  }

  /**
   * Without the plain-name hypothesis the order is not total: a tree "a" and a blob "a/" compare
   * equal although their names differ.
   */
  lemma CmpEqualForDifferentNames(tree: EntryMode, blob: EntryMode, id: seq<byte>)
    requires IsTree(tree) && !IsTree(blob)
    ensures Cmp(Entry(tree, [0x61], id), Entry(blob, [0x61, SLASH], id)) == Equal
  {
    var a: seq<byte> := [0x61];
    assert a[..1] == a;
    assert [0x61, SLASH][..1] == a;
    LexCompareEqual(a, a);
  }
}
