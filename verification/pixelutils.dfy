/**
 * The coordinate codec: a pixel address (layer, row, col) and the flat
 * storage key `LAY<layer>_ROW<row>_COL<col>` that indexes the pixel store.
 */
module PixelUtils {
  import opened JsNumber

  /** The object `keyToPixel` returns; each component is whatever `parseInt` made of its segment. */
  datatype Address = Address(layer: Num, row: Num, col: Num)

  /** No component is `undefined`, that is, every component is an integer or NaN. */
  predicate Defined(a: Address) {
    a.layer != Undefined && a.row != Undefined && a.col != Undefined
  }

  /** `s.split('_')`: the maximal `_`-free pieces of `s`, in order; never empty. */
  function Split(s: string): (parts: seq<string>)
    ensures |parts| >= 1
    ensures forall i :: 0 <= i < |parts| ==> '_' !in parts[i]
  {
    if |s| == 0 then [""]
    else if s[0] == '_' then [""] + Split(s[1..])
    else var rest := Split(s[1..]); [[s[0]] + rest[0]] + rest[1..]
  }

  /** `s.slice(3)`. */
  function DropPrefix(s: string): string {
    if |s| <= 3 then "" else s[3..]
  }

  /** The `i`-th destructured component: `parseInt` of segment `i` after its prefix, `undefined` when there is none. */
  function Component(parts: seq<string>, i: nat): Num {
    if i < |parts| then ParseInt(DropPrefix(parts[i])) else Undefined
  }

  function PixelToKey(a: Address): string {
    "LAY" + ToString(a.layer) + "_ROW" + ToString(a.row) + "_COL" + ToString(a.col)
  }

  /** A key splits into exactly its three prefixed segments. */
  lemma KeySegments(a: Address)
    ensures Split(PixelToKey(a)) == ["LAY" + ToString(a.layer), "ROW" + ToString(a.row), "COL" + ToString(a.col)]
  {
    ToStringHasNoUnderscore(a.layer);
    ToStringHasNoUnderscore(a.row);
    ToStringHasNoUnderscore(a.col);
    SplitThree("LAY" + ToString(a.layer), "ROW" + ToString(a.row), "COL" + ToString(a.col));
    assert PixelToKey(a) == ("LAY" + ToString(a.layer)) + "_" + ("ROW" + ToString(a.row)) + "_" + ("COL" + ToString(a.col));
  }

  function KeyToPixel(key: string): (a: Address)
    ensures a.layer != Undefined
  {
    var parts := Split(key);
    Address(Component(parts, 0), Component(parts, 1), Component(parts, 2))
  }

  lemma {:induction false} SplitSingle(s: string)
    requires '_' !in s
    ensures Split(s) == [s]
  {
    if |s| > 0 {
      SplitSingle(s[1..]);
      assert [s[0]] + s[1..] == s;
    }
  }

  /** Splitting is a homomorphism from `_`-joins to concatenation. */
  lemma {:induction false} SplitJoin(a: string, b: string)
    ensures Split(a + "_" + b) == Split(a) + Split(b)
  {
    var s := a + "_" + b;
    if |a| > 0 {
      assert s[0] == a[0];
      assert s[1..] == a[1..] + "_" + b;
      SplitJoin(a[1..], b);
      if a[0] == '_' {
        assert Split(a) == [""] + Split(a[1..]);
      } else {
        var rest := Split(a[1..]);
        assert Split(a) == [[a[0]] + rest[0]] + rest[1..];
      }
    } else {
      assert s == "_" + b;
      assert s[1..] == b;
    }
  }

  lemma SplitThree(x: string, y: string, z: string)
    requires '_' !in x && '_' !in y && '_' !in z
    ensures Split(x + "_" + y + "_" + z) == [x, y, z]
  {
    var tail := y + "_" + z;
    SplitSingle(y);
    SplitSingle(z);
    SplitJoin(y, z);
    assert Split(tail) == [y, z];
    SplitSingle(x);
    SplitJoin(x, tail);
    assert Split(x + "_" + tail) == [x, y, z];
    JoinAssociates(x, y, z);
  }

  /** `_`-joins regroup freely. */
  lemma JoinAssociates(x: string, y: string, z: string)
    ensures x + "_" + y + "_" + z == x + "_" + (y + "_" + z)
  {
  }

  /**
   * The first three characters of each segment are dropped unread: whatever
   * three-letter prefixes a key carries, it decodes to the numbers after them.
   */
  lemma PrefixesIgnored(p1: string, s1: string, p2: string, s2: string, p3: string, s3: string)
    requires |p1| == 3 && |p2| == 3 && |p3| == 3
    requires '_' !in p1 + s1 && '_' !in p2 + s2 && '_' !in p3 + s3
    ensures KeyToPixel(p1 + s1 + "_" + p2 + s2 + "_" + p3 + s3) == Address(ParseInt(s1), ParseInt(s2), ParseInt(s3))
  {
    assert p1 + s1 + "_" + p2 + s2 + "_" + p3 + s3 == (p1 + s1) + "_" + (p2 + s2) + "_" + (p3 + s3);
    SplitThree(p1 + s1, p2 + s2, p3 + s3);
    assert DropPrefix(p1 + s1) == s1 && DropPrefix(p2 + s2) == s2 && DropPrefix(p3 + s3) == s3;
  }

  /** Only the first three segments are read; anything after a third `_` is ignored. */
  lemma ExtraSegmentsIgnored(key: string, extra: string)
    requires |Split(key)| >= 3
    ensures KeyToPixel(key + "_" + extra) == KeyToPixel(key)
  {
    SplitJoin(key, extra);
  }

  /** Decoding an encoded address gives the address back. */
  lemma RoundTrip(a: Address)
    requires Defined(a)
    ensures KeyToPixel(PixelToKey(a)) == a
  {
    KeySegments(a);
    var parts := Split(PixelToKey(a));
    assert DropPrefix(parts[0]) == ToString(a.layer);
    assert DropPrefix(parts[1]) == ToString(a.row);
    assert DropPrefix(parts[2]) == ToString(a.col);
    ParseIntToString(a.layer);
    ParseIntToString(a.row);
    ParseIntToString(a.col);
  }

  /** Distinct addresses get distinct keys. */
  lemma PixelToKeyInjective(a: Address, b: Address)
    requires Defined(a) && Defined(b)
    requires PixelToKey(a) == PixelToKey(b)
    ensures a == b
  {
    RoundTrip(a);
    RoundTrip(b);
  }

  /** A key is canonical when it is the encoding of some address. */
  ghost predicate IsCanonical(key: string) {
    exists a: Address :: Defined(a) && PixelToKey(a) == key
  }

  /** Re-encoding a decoded key reproduces it exactly when the key is canonical. */
  lemma ReencodeIffCanonical(key: string)
    ensures PixelToKey(KeyToPixel(key)) == key <==> IsCanonical(key)
  {
    if IsCanonical(key) {
      var a: Address :| Defined(a) && PixelToKey(a) == key;
      RoundTrip(a);
    }
    if PixelToKey(KeyToPixel(key)) == key {
      var a := KeyToPixel(key);
      KeySegments(a);
      var parts := Split(key);
      assert |parts| == 3;
      assert Defined(a);
    }
  }

  /**
   * Zeros in front of a non-negative layer number are read past, so a key
   * such as `LAY007_ROW1_COL2` decodes to the address of `LAY7_ROW1_COL2`
   * and is not canonical.
   */
  lemma PaddedKeyNotCanonical(a: Address, zeros: string)
    requires Defined(a) && a.layer.Int? && a.layer.value >= 0
    requires |zeros| > 0 && forall i :: 0 <= i < |zeros| ==> zeros[i] == '0'
    ensures var padded := "LAY" + zeros + ToString(a.layer) + "_ROW" + ToString(a.row) + "_COL" + ToString(a.col);
            KeyToPixel(padded) == a && !IsCanonical(padded)
  {
    var layer, row, col := ToString(a.layer), ToString(a.row), ToString(a.col);
    var padded := "LAY" + zeros + layer + "_ROW" + row + "_COL" + col;
    ToStringHasNoUnderscore(a.layer);
    ToStringHasNoUnderscore(a.row);
    ToStringHasNoUnderscore(a.col);
    assert padded == "LAY" + (zeros + layer) + "_" + "ROW" + row + "_" + "COL" + col;
    assert '_' !in zeros + layer by {
      assert forall i :: 0 <= i < |zeros + layer| ==> (zeros + layer)[i] == '0' || (zeros + layer)[i] in layer;
    }
    PrefixesIgnored("LAY", zeros + layer, "ROW", row, "COL", col);
    ParseLeadingZeros(zeros, NatToDecimal(a.layer.value));
    ParseIntToString(a.layer);
    ParseIntToString(a.row);
    ParseIntToString(a.col);
    assert |PixelToKey(a)| < |padded|;
    ReencodeIffCanonical(padded);
  }

  /** The address `{layer: 0, row: 2, col: 5}` is stored under `LAY0_ROW2_COL5`. */
  lemma EncodeExample()
    ensures PixelToKey(Address(Int(0), Int(2), Int(5))) == "LAY0_ROW2_COL5"
  {
    assert ToString(Int(0)) == "0" && ToString(Int(2)) == "2" && ToString(Int(5)) == "5";
    assert "LAY" + "0" + "_ROW" == "LAY0_ROW" && "LAY0_ROW" + "2" == "LAY0_ROW2";
    assert "LAY0_ROW2" + "_COL" == "LAY0_ROW2_COL" && "LAY0_ROW2_COL" + "5" == "LAY0_ROW2_COL5";
  }
}
