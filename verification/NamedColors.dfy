/**
 Colour names: a table sorted by name, searched by halving, and searched the other way by value
 (Source/Editor/ColorLiteral.cpp:70-75, 227-241, 754-776).
 */
module NamedColors {
  import opened Common
  import opened TextOrder
  import opened ColorSpace
  import opened HueNotation

  type Rgb24 = x: nat | x < 0x100_0000

  datatype NamedColor = NamedColor(name: string, rgb: Rgb24)

  const TRANSPARENT: string := "transparent"

  ghost predicate Ascending(table: seq<NamedColor>) {
    forall i, j :: 0 <= i < j < |table| ==> Less(table[i].name, table[j].name)
  }

  predicate IsLowerLetter(c: char) {
    'a' <= c <= 'z'
  }

  predicate IsLowerWord(s: string) {
    s != "" && AllLower(s)
  }

  predicate AllLower(s: string) {
    s == "" || (IsLowerLetter(s[0]) && AllLower(s[1..]))
  }

  /** What the lookups rely on. */
  ghost predicate Proper(table: seq<NamedColor>) {
    && Ascending(table)
    && (forall i :: 0 <= i < |table| ==> IsLowerWord(table[i].name))
    && NamedColor(TRANSPARENT, 0) in table
  }

  /** std::lower_bound: halves the range until it is empty. */
  function LowerBound(table: seq<NamedColor>, name: string, lo: nat, hi: nat): (r: nat)
    requires lo <= hi <= |table|
    ensures lo <= r <= hi
    decreases hi - lo
  {
    if lo == hi then lo
    else
      var middle := (lo + hi) / 2;
      if Less(table[middle].name, name) then LowerBound(table, name, middle + 1, hi)
      else LowerBound(table, name, lo, middle)
  }

  function ColorOf(rgb: Rgb24, alpha: real): ColorValue {
    ColorValue((rgb / 0x1_0000) as real / 255.0, (rgb / 0x100 % 0x100) as real / 255.0,
      (rgb % 0x100) as real / 255.0, alpha)
  }

  function LookupNamedColor(table: seq<NamedColor>, lowered: string): Option<ColorValue> {
    var i := LowerBound(table, lowered, 0, |table|);
    if i == |table| || table[i].name != lowered then None
    else Some(ColorOf(table[i].rgb, if lowered == TRANSPARENT then 0.0 else 1.0))
  }

  /** The first opaque name of a value, in table order. */
  function NameOf(table: seq<NamedColor>, packed: int): Option<string> {
    if table == [] then None
    else if table[0].rgb == packed && table[0].name != TRANSPARENT then Some(table[0].name)
    else NameOf(table[1..], packed)
  }

  /** It names that value, and there is none exactly when no opaque entry has the value. */
  lemma {:induction false} NameOfMeans(table: seq<NamedColor>, packed: int) returns (i: nat)
    ensures match NameOf(table, packed)
      case Some(name) => i < |table| && table[i].name == name && name != TRANSPARENT && table[i].rgb == packed
      case None => forall k :: 0 <= k < |table| && table[k].name != TRANSPARENT ==> table[k].rgb != packed
  {
    i := 0;
    if table != [] && !(table[0].rgb == packed && table[0].name != TRANSPARENT) {
      i := NameOfMeans(table[1..], packed);
      i := i + 1;
    }
  }

  // ---- the search is right ----

  lemma {:induction false} BoundSplits(table: seq<NamedColor>, name: string, lo: nat, hi: nat, k: nat)
    requires Ascending(table) && lo <= hi <= |table| && lo <= k < hi
    ensures Less(table[k].name, name) <==> k < LowerBound(table, name, lo, hi)
    decreases hi - lo
  {
    var middle := (lo + hi) / 2;
    if Less(table[middle].name, name) {
      if k > middle {
        BoundSplits(table, name, middle + 1, hi, k);
      } else if k < middle {
        LessIsTransitive(table[k].name, table[middle].name, name);
      }
    } else if k < middle {
      BoundSplits(table, name, lo, middle, k);
    } else if k > middle && Less(table[k].name, name) {
      LessIsTransitive(table[middle].name, table[k].name, name);
    }
  }

  /** In a sorted table the halving search finds a name exactly when it is there, and finds its own entry. */
  lemma LookupFinds(table: seq<NamedColor>, i: nat)
    requires Ascending(table) && i < |table|
    ensures LookupNamedColor(table, table[i].name) ==
            Some(ColorOf(table[i].rgb, if table[i].name == TRANSPARENT then 0.0 else 1.0))
  {
    var name := table[i].name;
    var r := LowerBound(table, name, 0, |table|);
    BoundSplits(table, name, 0, |table|, i);
    LessIsTotal(name, name);
    if r < i {
      BoundSplits(table, name, 0, |table|, r);
    }
  }

  // ---- a value and its name ----

  function Packed(red: int, green: int, blue: int): int {
    red * 0x1_0000 + green * 0x100 + blue
  }

  lemma Unpacked(red: nat, green: nat, blue: nat)
    requires red < 256 && green < 256 && blue < 256
    ensures Packed(red, green, blue) / 0x1_0000 == red
    ensures Packed(red, green, blue) / 0x100 % 0x100 == green && Packed(red, green, blue) % 0x100 == blue
  {
  }

  /** The name offered for an opaque colour is looked up as that very colour. */
  lemma NameIsOfColor(table: seq<NamedColor>, red: nat, green: nat, blue: nat)
    requires Proper(table) && red < 256 && green < 256 && blue < 256 && NameOf(table, Packed(red, green, blue)).Some?
    ensures LookupNamedColor(table, NameOf(table, Packed(red, green, blue)).value) ==
            Some(ColorValue(red as real / 255.0, green as real / 255.0, blue as real / 255.0, 1.0))
  {
    var packed := Packed(red, green, blue);
    var i := NameOfMeans(table, packed);
    LookupFinds(table, i);
    Unpacked(red, green, blue);
    ColorOfParts(table[i].rgb, red, green, blue);
  }

  lemma ColorOfParts(rgb: Rgb24, red: nat, green: nat, blue: nat)
    requires rgb / 0x1_0000 == red && rgb / 0x100 % 0x100 == green && rgb % 0x100 == blue
    ensures ColorOf(rgb, 1.0) == ColorValue(red as real / 255.0, green as real / 255.0, blue as real / 255.0, 1.0)
  {
  }
}
