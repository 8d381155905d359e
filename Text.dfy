/** The label helpers of `tw::Game`: the string drawn on a tile and its
    character size. Both are lookups on the tile's exponent. */
module Text {
  import opened Grid

  function DigitValue(c: char): nat {
    if '0' <= c <= '9' then c as int - '0' as int else 0
  }

  /** The number a string of decimal digits denotes ("" denotes 0). */
  function Parse(s: string): nat {
    if s == [] then 0 else 10 * Parse(s[..|s| - 1]) + DigitValue(s[|s| - 1])
  }

  /** s is written in decimal without leading zeros. */
  predicate Canonical(s: string) {
    (forall i :: 0 <= i < |s| ==> '0' <= s[i] <= '9') && (s == [] || s[0] != '0')
  }

  /** The label table of Game.cpp:189-202, indexed by exponent. */
  const Labels: seq<string> :=
    ["", "2", "4", "8", "16", "32", "64", "128", "256", "512", "1024", "2048"]

  /** Game.cpp:186-204: the label of a tile; the table has twelve entries, so
      the exponent must be below 12. The label is the value of the tile,
      2^tile (none for an empty cell), written in decimal. */
  function GetText(tile: nat): (s: string)
    requires tile < |Labels|
    ensures Canonical(s) && Parse(s) == TileValue(tile)
  {
    LabelsCanonical(tile);
    LabelsDenoteValues(tile);
    Labels[tile]
  }

  /** The value of a numeral of up to four digits, digit by digit. */
  lemma ParseShort(s: string)
    requires |s| <= 4
    ensures |s| == 1 ==> Parse(s) == DigitValue(s[0])
    ensures |s| == 2 ==> Parse(s) == 10 * DigitValue(s[0]) + DigitValue(s[1])
    ensures |s| == 3 ==>
      Parse(s) == 100 * DigitValue(s[0]) + 10 * DigitValue(s[1]) + DigitValue(s[2])
    ensures |s| == 4 ==>
      Parse(s) == 1000 * DigitValue(s[0]) + 100 * DigitValue(s[1]) + 10 * DigitValue(s[2]) + DigitValue(s[3])
  {
    if |s| >= 1 {
      assert s[..1][..0] == [];
    }
    if |s| >= 2 {
      assert s[..2][..1] == s[..1];
    }
    if |s| >= 3 {
      assert s[..3][..2] == s[..2];
    }
    if |s| == 4 {
      assert s[..4] == s;
    }
  }

  lemma PowersUpTo2048()
    ensures Pow2(1) == 2 && Pow2(2) == 4 && Pow2(3) == 8 && Pow2(4) == 16 && Pow2(5) == 32
    ensures Pow2(6) == 64 && Pow2(7) == 128 && Pow2(8) == 256 && Pow2(9) == 512
    ensures Pow2(10) == 1024 && Pow2(11) == 2048
  {
    assert Pow2(5) == 32;
    assert Pow2(8) == 256;
  }

  /** Every entry of the table is a decimal numeral without leading zeros. */
  lemma LabelsCanonical(tile: nat)
    requires tile < |Labels|
    ensures Canonical(Labels[tile])
  {
    var s := Labels[tile];
    assert forall i :: 0 <= i < |s| ==> s[i] in "0123456789";
  }

  /** Entry k of the table denotes 2^k, the empty entry 0. */
  lemma LabelsDenoteValues(tile: nat)
    requires tile < |Labels|
    ensures Parse(Labels[tile]) == TileValue(tile)
  {
    PowersUpTo2048();
    if tile == 11 {
      ParseShort("2048");
    } else if tile == 10 {
      ParseShort("1024");
    } else if tile == 9 {
      ParseShort("512");
    } else if tile == 8 {
      ParseShort("256");
    } else if tile == 7 {
      ParseShort("128");
    } else if tile == 6 {
      ParseShort("64");
    } else if tile == 5 {
      ParseShort("32");
    } else if tile == 4 {
      ParseShort("16");
    } else if tile == 3 {
      ParseShort("8");
    } else if tile == 2 {
      ParseShort("4");
    } else if tile == 1 {
      ParseShort("2");
    }
  }

  /** Game.cpp:206-213: the character size of a tile's label, 35 from
      exponent 10 up, 45 from 7 up, else 55. */
  function GetTextSize(tile: nat): nat {
    if tile >= 10 then 35 else if tile >= 7 then 45 else 55
  }

  /** The size steps down with the length of the label: 55 for labels of up
      to two digits, 45 for three digits and 35 for four. */
  lemma TextSizeByLength(tile: nat)
    requires tile < |Labels|
    ensures |GetText(tile)| <= 2 ==> GetTextSize(tile) == 55
    ensures |GetText(tile)| == 3 ==> GetTextSize(tile) == 45
    ensures |GetText(tile)| == 4 ==> GetTextSize(tile) == 35
  {
  }
}
