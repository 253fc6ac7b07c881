/**
 * `Guid.NewGuid()` is an oracle here: a GUID is any 128-bit value, given as its
 * 32 hex nibbles, and `Text` is its default ("D") string form.
 */
module Guids {
  import opened Strings
  import Paths

  type Nibble = n: nat | n < 16

  type Guid = s: seq<Nibble> | |s| == 32 witness seq(32, _ => 0)

  function Digits(ns: seq<Nibble>): (r: string)
    ensures |r| == |ns|
    ensures forall i :: 0 <= i < |r| ==> r[i] == HexDigit(ns[i])
  {
    seq(|ns|, i requires 0 <= i < |ns| => HexDigit(ns[i]))
  }

  /** `Guid.ToString()`: 8-4-4-4-12 lower-case hex digits joined by '-'. */
  function Text(g: Guid): (r: string)
    ensures |r| == 36
    ensures forall i :: 0 <= i < |r| ==> r[i] == '-' || IsLowerHexDigit(r[i])
  {
    Digits(g[..8]) + "-" + Digits(g[8..12]) + "-" + Digits(g[12..16]) + "-"
      + Digits(g[16..20]) + "-" + Digits(g[20..])
  }

  /** The text of a GUID has no '.' and no directory separator, so it can carry an extension. */
  lemma TextIsPlain(g: Guid)
    ensures Paths.Plain(Text(g), 0, |Text(g)|)
    ensures !Paths.IsPathRooted(Text(g))
  {
    var t := Text(g);
    assert t[1] != ':';
  }

  /** Distinct GUIDs have distinct texts. */
  lemma TextInjective(g1: Guid, g2: Guid)
    requires Text(g1) == Text(g2)
    ensures g1 == g2
  {
    var t1, t2 := Text(g1), Text(g2);
    forall i | 0 <= i < 32 ensures g1[i] == g2[i] {
      var p := if i < 8 then i else if i < 12 then i + 1 else if i < 16 then i + 2
               else if i < 20 then i + 3 else i + 4;
      assert t1[p] == HexDigit(g1[i]) && t2[p] == HexDigit(g2[i]);
      HexValueOfDigit(g1[i]);
      HexValueOfDigit(g2[i]);
    }
  }
}
