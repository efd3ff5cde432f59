/** Strings as the Java code handles them: `String.split` on one character,
    separator-joined fields and the decimal text of an integer. */
module Text {

  /** The index of the first occurrence of `c` in `s`. */
  function FirstIndex(s: string, c: char): (i: nat)
    requires c in s
    ensures i < |s| && s[i] == c && c !in s[..i]
  {
    if s[0] == c then 0 else 1 + FirstIndex(s[1..], c)
  }

  /** The pieces of `s` between occurrences of `c`, empty pieces included. */
  function Pieces(s: string, c: char): (r: seq<string>)
    ensures |r| >= 1
    decreases |s|
  {
    if c !in s then [s]
    else
      var i := FirstIndex(s, c);
      [s[..i]] + Pieces(s[i + 1..], c)
  }

  /** `ps` without its trailing empty strings. */
  function DropTrailingEmpty(ps: seq<string>): seq<string> {
    if ps == [] then []
    else if ps[|ps| - 1] == "" then DropTrailingEmpty(ps[..|ps| - 1])
    else ps
  }

  /** Java's `s.split(c)` for a one-character pattern: the input itself when
      `c` does not occur, otherwise the pieces without trailing empty ones. */
  function JavaSplit(s: string, c: char): seq<string> {
    if c !in s then [s] else DropTrailingEmpty(Pieces(s, c))
  }

  /** `fs` written one after another with `c` between neighbours. */
  function Joined(fs: seq<string>, c: char): string
    requires |fs| >= 1
  {
    if |fs| == 1 then fs[0] else fs[0] + [c] + Joined(fs[1..], c)
  }

  lemma {:induction false} PiecesOfJoined(fs: seq<string>, c: char)
    requires |fs| >= 1
    requires forall i | 0 <= i < |fs| :: c !in fs[i]
    ensures Pieces(Joined(fs, c), c) == fs
  {
    if |fs| > 1 {
      assert c !in fs[0];
      JoinedHead(fs, c);
      forall i | 0 <= i < |fs[1..]| ensures c !in fs[1..][i] {
        assert fs[1..][i] == fs[i + 1];
      }
      PiecesOfJoined(fs[1..], c);
      assert fs == [fs[0]] + fs[1..];
    }
  }

  /** The first separator of joined fields ends the first field. */
  lemma JoinedHead(fs: seq<string>, c: char)
    requires |fs| > 1 && c !in fs[0]
    ensures c in Joined(fs, c)
    ensures FirstIndex(Joined(fs, c), c) == |fs[0]|
    ensures Joined(fs, c)[..|fs[0]|] == fs[0] && Joined(fs, c)[|fs[0]| + 1..] == Joined(fs[1..], c)
    ensures Pieces(Joined(fs, c), c) == [fs[0]] + Pieces(Joined(fs[1..], c), c)
  {
    var s := Joined(fs, c);
    var n := |fs[0]|;
    assert s == fs[0] + [c] + Joined(fs[1..], c);
    assert s[..n] == fs[0];
    FirstIndexAt(s, c, n);
    assert s[n + 1..] == Joined(fs[1..], c);
  }

  /** A `c` with no `c` before it is the first one. */
  lemma {:induction false} FirstIndexAt(s: string, c: char, n: nat)
    requires n < |s| && s[n] == c && c !in s[..n]
    ensures c in s && FirstIndex(s, c) == n
  {
    assert s[n] in s;
    if n > 0 {
      assert s[0] == s[..n][0];
      assert s[1..][..n - 1] == s[..n][1..];
      FirstIndexAt(s[1..], c, n - 1);
    }
  }

  /** Splitting separator-joined fields gives the fields back, as long as no field
      contains the separator and the last one is not empty. */
  lemma SplitJoined(fs: seq<string>, c: char)
    requires |fs| >= 1
    requires forall i | 0 <= i < |fs| :: c !in fs[i]
    requires fs[|fs| - 1] != ""
    ensures JavaSplit(Joined(fs, c), c) == fs
  {
    if |fs| == 1 {
    } else {
      assert Joined(fs, c)[|fs[0]|] == c;
      PiecesOfJoined(fs, c);
    }
  }

  function Digit(d: nat): char
    requires d < 10
  {
    "0123456789"[d]
  }

  /** The decimal text of `n`, as `Integer.toString` writes it. */
  function NatToString(n: nat): string
    decreases n
  {
    if n < 10 then [Digit(n)] else NatToString(n / 10) + [Digit(n % 10)]
  }

  /** The decimal text of `i`, with a leading '-' when negative. */
  function IntToString(i: int): string {
    if i < 0 then "-" + NatToString(-i) else NatToString(i)
  }
}
