/**
 * Export identifiers of the wire tools: an item's colour key is replaced
 * by its user-given name when the colour map has a non-empty one
 * (`colorMap[color] || color`), and the frame number is appended after a
 * `;` in decimal, as JavaScript's string concatenation writes a
 * non-negative integer.
 */
module Ids {
  /** The decimal digit character of d. */
  function Digit(d: nat): (c: char)
    requires d < 10
    ensures '0' <= c <= '9'
  {
    "0123456789"[d]
  }

  predicate AllDigits(s: string) {
    forall i :: 0 <= i < |s| ==> '0' <= s[i] <= '9'
  }

  /** The decimal form of n with no leading zeros, as `String(n)` writes it. */
  function NatToString(n: nat): (s: string)
    ensures |s| > 0 && AllDigits(s)
    ensures |s| > 1 ==> s[0] != '0'
  {
    if n < 10 then [Digit(n)] else NatToString(n / 10) + [Digit(n % 10)]
  }

  /** The value of a string of decimal digits. */
  function ParseNat(s: string): (n: nat)
    requires AllDigits(s)
  {
    if |s| == 0 then 0 else ParseNat(s[..|s| - 1]) * 10 + (s[|s| - 1] - '0') as nat
  }

  lemma DigitValue(d: nat)
    requires d < 10
    ensures (Digit(d) - '0') as nat == d
  {
  }

  /** Reading back the decimal form of n gives n. */
  lemma {:induction false} ParseNatToString(n: nat)
    ensures ParseNat(NatToString(n)) == n
    decreases n
  {
    var s := NatToString(n);
    if n < 10 {
      DigitValue(n);
      assert s[..0] == [];
    } else {
      ParseNatToString(n / 10);
      DigitValue(n % 10);
      assert s[..|s| - 1] == NatToString(n / 10);
    }
  }

  /** Distinct numbers have distinct decimal forms. */
  lemma NatToStringInjective(a: nat, b: nat)
    ensures NatToString(a) == NatToString(b) <==> a == b
  {
    if NatToString(a) == NatToString(b) {
      ParseNatToString(a);
      ParseNatToString(b);
    }
  }

  /** `colorMap[color] || color`: the mapped name when it is present and non-empty, else the colour key itself. */
  function Mapped(colorMap: map<string, string>, color: string): (name: string)
    ensures name == color || (color in colorMap && name == colorMap[color] && name != "")
    ensures color in colorMap && colorMap[color] != "" ==> name == colorMap[color]
  {
    if color in colorMap && colorMap[color] != "" then colorMap[color] else color
  }

  /** The export id `name + ";" + frame`. */
  function FrameId(name: string, frame: nat): (id: string)
    ensures |id| > |name| && id[..|name|] == name && id[|name|] == ';'
    ensures id[|name| + 1..] == NatToString(frame)
  {
    name + ";" + NatToString(frame)
  }

  /** The first `;` of a string that has one. */
  function FirstSemi(s: string): (i: nat)
    requires ';' in s
    ensures i < |s| && s[i] == ';' && ';' !in s[..i]
  {
    if s[0] == ';' then 0 else
      assert s == [s[0]] + s[1..];
      var j := FirstSemi(s[1..]);
      assert s[..j + 1] == [s[0]] + s[1..][..j];
      j + 1
  }

  /**
   * Names without `;` give ids that determine both the name and the frame:
   * two ids agree exactly when their names and frames agree.
   */
  lemma FrameIdInjective(n1: string, f1: nat, n2: string, f2: nat)
    requires ';' !in n1 && ';' !in n2
    ensures FrameId(n1, f1) == FrameId(n2, f2) <==> n1 == n2 && f1 == f2
  {
    var a, b := FrameId(n1, f1), FrameId(n2, f2);
    if a == b {
      assert a[..|n1|] == n1 && a[|n1|] == ';';
      assert FirstSemi(a) == |n1| by {
        assert a[..|n1| + 1] == n1 + [';'];
      }
      assert FirstSemi(b) == |n2| by {
        assert b[..|n2| + 1] == n2 + [';'];
      }
      assert n1 == n2;
      NatToStringInjective(f1, f2);
    }
  }

  /**
   * Reading an id back: for a name without `;`, the text before the first
   * `;` is the name, and the text after it is all digits and reads as the
   * frame number.
   */
  lemma FrameIdRoundTrip(name: string, frame: nat)
    requires ';' !in name
    ensures var id := FrameId(name, frame);
      ';' in id && id[..FirstSemi(id)] == name
      && AllDigits(id[FirstSemi(id) + 1..]) && ParseNat(id[FirstSemi(id) + 1..]) == frame
  {
    var id := FrameId(name, frame);
    assert id[|name|] == ';';
    assert FirstSemi(id) == |name| by {
      assert id[..|name| + 1] == name + [';'];
    }
    ParseNatToString(frame);
  }

  /**
   * Naming colour c (an update of the colour map) changes the export name
   * of c alone: c gets the new name, or falls back to its own key when the
   * name is empty, and every other colour keeps its export name.
   */
  lemma MappedUpdate(colorMap: map<string, string>, c: string, name: string, d: string)
    ensures d == c && name != "" ==> Mapped(colorMap[c := name], d) == name
    ensures d == c && name == "" ==> Mapped(colorMap[c := name], d) == c
    ensures d != c ==> Mapped(colorMap[c := name], d) == Mapped(colorMap, d)
  {
  }

  /** An empty colour map leaves every colour key as its own name, and a non-empty key never maps to "". */
  lemma MappedDefault(colorMap: map<string, string>, color: string)
    ensures Mapped(map[], color) == color
    ensures color != "" ==> Mapped(colorMap, color) != ""
  {
  }
}
