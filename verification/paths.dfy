/**
  File names and paths of the iconset images. Every image in the iconset is
  named `icon_<W>x<H>.png` with W = H = the pixel size, written in decimal, and
  lives directly inside the temporary iconset directory.
 */
module Paths {

  predicate IsDigit(c: char) {
    '0' <= c <= '9'
  }

  predicate AllDigits(s: string) {
    forall i :: 0 <= i < |s| ==> IsDigit(s[i])
  }

  /** The decimal digit character for `d`. */
  function DigitChar(d: nat): (c: char)
    requires d < 10
    ensures IsDigit(c)
    ensures c as int - '0' as int == d
  {
    ('0' as int + d) as char
  }

  /** Decimal rendering of a non-negative integer, as `%d` prints it. */
  function NatToString(n: nat): (s: string)
    ensures |s| > 0
    ensures AllDigits(s)
    decreases n
  {
    if n < 10 then [DigitChar(n)]
    else NatToString(n / 10) + [DigitChar(n % 10)]
  }

  /** The value of a string of decimal digits: the inverse of NatToString. */
  function DigitsValue(s: string): nat
    requires AllDigits(s)
    decreases |s|
  {
    if |s| == 0 then 0
    else DigitsValue(s[..|s| - 1]) * 10 + (s[|s| - 1] as int - '0' as int)
  }

  /** Reading back the printed decimal gives the number printed. */
  lemma {:induction false} NatToStringRoundTrip(n: nat)
    ensures DigitsValue(NatToString(n)) == n
    decreases n
  {
    var s := NatToString(n);
    if n < 10 {
      assert s[..|s| - 1] == [];
    } else {
      NatToStringRoundTrip(n / 10);
      assert s[..|s| - 1] == NatToString(n / 10);
    }
  }

  /** Distinct numbers print differently. */
  lemma NatToStringInjective(a: nat, b: nat)
    requires NatToString(a) == NatToString(b)
    ensures a == b
  {
    NatToStringRoundTrip(a);
    NatToStringRoundTrip(b);
  }

  /** `fmt.Sprintf("icon_%dx%d.png", size, size)` */
  function IconFileName(size: nat): string {
    "icon_" + NatToString(size) + "x" + NatToString(size) + ".png"
  }

  /** In an icon file name, the first `x` after the `icon_` prefix ends the width. */
  lemma IconFileNameShape(size: nat)
    ensures var w := NatToString(size);
            var f := IconFileName(size);
            && |f| > 5 + |w|
            && f[5..5 + |w|] == w
            && f[5 + |w|] == 'x'
            && forall i :: 5 <= i < 5 + |w| ==> f[i] != 'x'
  {
    var w := NatToString(size);
    var f := IconFileName(size);
    assert f == "icon_" + w + "x" + w + ".png";
    forall i | 5 <= i < 5 + |w|
      ensures f[i] != 'x'
    {
      assert f[i] == w[i - 5];
      assert IsDigit(w[i - 5]);
    }
  }

  /** Distinct sizes give distinct file names, so a name identifies its size. */
  lemma IconFileNameInjective(a: nat, b: nat)
    requires IconFileName(a) == IconFileName(b)
    ensures a == b
  {
    IconFileNameShape(a);
    IconFileNameShape(b);
    var wa, wb := NatToString(a), NatToString(b);
    assert |wa| == |wb|;
    NatToStringInjective(a, b);
  }

  /** `filepath.Join(dir, name)` for a clean directory path and a plain file name. */
  function JoinPath(dir: string, name: string): string {
    dir + "/" + name
  }

  /** Path of the image of the given size inside the iconset directory. */
  function IconPath(dir: string, size: nat): string {
    JoinPath(dir, IconFileName(size))
  }

  /** Distinct sizes are written to distinct paths of the same directory. */
  lemma IconPathInjective(dir: string, a: nat, b: nat)
    requires IconPath(dir, a) == IconPath(dir, b)
    ensures a == b
  {
    assert IconPath(dir, a)[|dir| + 1..] == IconFileName(a);
    assert IconPath(dir, b)[|dir| + 1..] == IconFileName(b);
    IconFileNameInjective(a, b);
  }
}
