/**
 * String vocabulary shared by the report generators and the export code.
 *
 * PHP's `str_replace($needle, $with, $s)` and a `preg_replace` whose pattern
 * is a plain literal both scan the subject from left to right and replace
 * non-overlapping occurrences; `ReplaceAll` is that scan.  `strpos` is
 * `FirstIndex`, and `strlen` (a byte count) is `Utf8Length`.
 */
module Strings {
  import opened Basics

  /** `p` is a prefix of `s`. */
  predicate StartsWith(s: string, p: string) {
    |p| <= |s| && s[..|p|] == p
  }

  /** `p` occurs in `s` starting at index `k`. */
  predicate OccursAt(s: string, p: string, k: int) {
    0 <= k && k + |p| <= |s| && s[k..k + |p|] == p
  }

  /** `p` occurs somewhere in `s`. */
  predicate Occurs(s: string, p: string) {
    exists k :: 0 <= k <= |s| - |p| && OccursAt(s, p, k)
  }

  /** The first character of `m` does not appear again later in `m`. */
  predicate FirstCharUnique(m: string) {
    |m| > 0 && forall i :: 1 <= i < |m| ==> m[i] != m[0]
  }

  /** No character of `r` appears in `q`. */
  predicate DisjointChars(r: string, q: string) {
    forall i :: 0 <= i < |r| ==> r[i] !in q
  }

  /**
   * Left-to-right, non-overlapping replacement of every occurrence of `p`
   * by `r`, as `str_replace` does.
   */
  function ReplaceAll(s: string, p: string, r: string): string
    requires |p| > 0
    decreases |s|
  {
    if |s| == 0 then ""
    else if StartsWith(s, p) then r + ReplaceAll(s[|p|..], p, r)
    else [s[0]] + ReplaceAll(s[1..], p, r)
  }

  /** Index of the first occurrence of `p` in `s`, as `strpos` finds it. */
  function FirstIndex(s: string, p: string): (r: Option<nat>)
    ensures r.Some? ==> OccursAt(s, p, r.value)
    ensures r.Some? ==> forall k :: 0 <= k < r.value ==> !OccursAt(s, p, k)
    ensures r.None? <==> !Occurs(s, p)
    decreases |s|
  {
    if StartsWith(s, p) then
      assert OccursAt(s, p, 0);
      Some(0)
    else if |s| == 0 then
      assert forall k :: !OccursAt(s, p, k);
      None
    else
      var rest := FirstIndex(s[1..], p);
      OccursNotAtStart(s, p);
      match rest
      case None => None
      case Some(i) =>
        assert s == [s[0]] + s[1..];
        OccursAfterPrefix([s[0]], s[1..], p, i + 1);
        forall k | 1 <= k < i + 1 ensures !OccursAt(s, p, k) {
          OccursAfterPrefix([s[0]], s[1..], p, k);
        }
        assert !OccursAt(s, p, 0);
        Some(i + 1)
  }

  /** Past a prefix `a`, occurrences in `a + b` are the occurrences in `b`. */
  lemma OccursAfterPrefix(a: string, b: string, q: string, j: int)
    requires |a| <= j
    ensures OccursAt(a + b, q, j) <==> OccursAt(b, q, j - |a|)
  {
    if j + |q| <= |a| + |b| {
      assert (a + b)[j..j + |q|] == b[j - |a|..j - |a| + |q|];
    }
  }

  /** `u` concatenated `n` times. */
  function Repeat(u: string, n: nat): (r: string)
    ensures |r| == n * |u|
  {
    if n == 0 then "" else u + Repeat(u, n - 1)
  }

  /** The `k`-th block of `|u|` characters of `s` is `u`. */
  ghost predicate BlockIs(s: string, u: string, k: nat) {
    (k + 1) * |u| <= |s| && s[k * |u|..(k + 1) * |u|] == u
  }

  /** The `k`-th block of `|u|` characters of `Repeat(u, n)` is `u`. */
  lemma {:induction false} RepeatBlock(u: string, n: nat, k: nat)
    requires k < n
    ensures Repeat(u, n)[k * |u|..(k + 1) * |u|] == u
  {
    var rest := Repeat(u, n - 1);
    assert Repeat(u, n) == u + rest;
    if k > 0 {
      RepeatBlock(u, n - 1, k - 1);
      BlockBounds(k, n, |u|);
      SliceAfterPrefix(u, rest, k * |u|, (k + 1) * |u|);
    } else {
      assert (u + rest)[..|u|] == u;
    }
  }

  /** Block `k` of width `w` starts one block after block `k - 1` and ends within `n` blocks. */
  lemma BlockBounds(k: nat, n: nat, w: nat)
    requires 0 < k < n
    ensures k * w == w + (k - 1) * w && (k + 1) * w == w + k * w
    ensures n * w == w + (n - 1) * w && (k + 1) * w <= n * w
  {
    MulMonotone(k + 1, n, w);
  }

  lemma MulMonotone(a: nat, b: nat, w: nat)
    requires a <= b
    ensures a * w <= b * w
  {
    assert b * w == a * w + (b - a) * w;
  }

  lemma Associate(a: string, b: string, c: string)
    ensures a + b + c == a + (b + c)
  {
  }

  /** A concatenation starts with its first part, and the rest follows it. */
  lemma AfterPrefix(a: string, b: string)
    ensures StartsWith(a + b, a) && (a + b)[..|a|] == a && (a + b)[|a|..] == b
  {
    assert (a + b)[..|a|] == a;
  }

  /** A slice lying after the prefix `u` is a slice of the rest. */
  lemma SliceAfterPrefix(u: string, rest: string, a: int, b: int)
    requires |u| <= a <= b <= |u| + |rest|
    ensures (u + rest)[a..b] == rest[a - |u|..b - |u|]
  {
  }

  /** Every character of `Repeat(u, n)` is a character of `u`. */
  lemma {:induction false} RepeatChars(u: string, n: nat, c: char)
    requires c !in u
    ensures c !in Repeat(u, n)
  {
    if n > 0 {
      RepeatChars(u, n - 1, c);
    }
  }

  /** An occurrence with none before it is the one `FirstIndex` finds. */
  lemma FirstIndexIs(s: string, p: string, k: nat)
    requires OccursAt(s, p, k)
    requires forall j :: 0 <= j < k ==> !OccursAt(s, p, j)
    ensures FirstIndex(s, p) == Some(k)
  {
    assert Occurs(s, p);
  }

  /**
   * When the last character of `t` occurs neither in `x` nor earlier in
   * `t`, the first occurrence of `t` in `x + t + y` is the one right after `x`.
   */
  lemma FirstIndexOfTerminator(x: string, t: string, y: string)
    requires |t| > 0
    requires t[|t| - 1] !in x && t[|t| - 1] !in t[..|t| - 1]
    ensures FirstIndex(x + t + y, t) == Some(|x|)
  {
    var s := x + t + y;
    var last := |t| - 1;
    assert OccursAt(s, t, |x|) by { assert s[|x|..|x| + |t|] == t; }
    forall j | 0 <= j < |x| ensures !OccursAt(s, t, j) {
      if j + last < |x| {
        assert s[j + last] == x[j + last];
      } else {
        assert s[j + last] == t[j + last - |x|];
        assert t[j + last - |x|] in t[..last];
      }
      assert s[j + last] != t[last];
    }
    FirstIndexIs(s, t, |x|);
  }

  /** `implode(sep, parts)`. */
  function Join(parts: seq<string>, sep: string): string {
    if |parts| == 0 then ""
    else if |parts| == 1 then parts[0]
    else parts[0] + sep + Join(parts[1..], sep)
  }

  /**
   * `explode(sep, s)`: the pieces between the occurrences of `sep`, found
   * left to right; a text without `sep` is one piece.
   */
  function Explode(s: string, sep: string): (r: seq<string>)
    requires |sep| > 0
    ensures |r| > 0
    decreases |s|
  {
    match FirstIndex(s, sep)
    case None => [s]
    case Some(k) => [s[..k]] + Explode(s[k + |sep|..], sep)
  }

  /** `implode` undoes `explode`: joining the pieces with the separator gives the text back. */
  lemma {:induction false} ImplodeExplode(s: string, sep: string)
    requires |sep| > 0
    ensures Join(Explode(s, sep), sep) == s
    decreases |s|
  {
    var first := FirstIndex(s, sep);
    if first.Some? {
      var k := first.value;
      var rest := s[k + |sep|..];
      var tail := Explode(rest, sep);
      assert Explode(s, sep) == [s[..k]] + tail;
      ImplodeExplode(rest, sep);
      JoinCons(s[..k], tail, sep);
      AroundOccurrence(s, sep, k);
    }
  }

  /** `shuffle` only reorders: what it returns is a permutation of what it is given. */
  ghost predicate IsShuffle(shuffle: seq<string> -> seq<string>) {
    forall x :: multiset(shuffle(x)) == multiset(x)
  }

  lemma JoinCons(head: string, rest: seq<string>, sep: string)
    requires |rest| > 0
    ensures Join([head] + rest, sep) == head + sep + Join(rest, sep)
  {
    assert ([head] + rest)[0] == head && ([head] + rest)[1..] == rest;
  }

  /** A text is the part before an occurrence, the occurrence, and the part after it. */
  lemma AroundOccurrence(s: string, p: string, k: nat)
    requires OccursAt(s, p, k)
    ensures s == s[..k] + p + s[k + |p|..]
  {
    assert s == s[..k] + s[k..k + |p|] + s[k + |p|..];
  }

  /** PHP 8 `strtolower`: ASCII letters only. */
  function AsciiLower(s: string): (r: string)
    ensures |r| == |s|
    ensures forall i :: 0 <= i < |s| ==> r[i] == LowerChar(s[i])
  {
    if |s| == 0 then "" else [LowerChar(s[0])] + AsciiLower(s[1..])
  }

  function LowerChar(c: char): char {
    if 'A' <= c <= 'Z' then (c as int + 32) as char else c
  }

  /** Number of bytes of the UTF-8 encoding of one character. */
  function Utf8Width(c: char): nat {
    if c as int < 0x80 then 1
    else if c as int < 0x800 then 2
    else if c as int < 0x10000 then 3
    else 4
  }

  /** `strlen` of a string held as UTF-8: its byte count. */
  function Utf8Length(s: string): (n: nat)
    ensures |s| <= n <= 4 * |s|
  {
    if |s| == 0 then 0 else Utf8Width(s[0]) + Utf8Length(s[1..])
  }

  // ---------------------------------------------------------------------
  // Occurrence facts

  lemma OccursNotAtStart(s: string, p: string)
    requires |s| > 0 && !StartsWith(s, p)
    ensures Occurs(s, p) <==> Occurs(s[1..], p)
  {
    if Occurs(s, p) {
      var k :| 0 <= k <= |s| - |p| && OccursAt(s, p, k);
      assert k != 0;
      assert s[1..][k - 1..k - 1 + |p|] == s[k..k + |p|];
      assert OccursAt(s[1..], p, k - 1);
    }
    if Occurs(s[1..], p) {
      var k :| 0 <= k <= |s[1..]| - |p| && OccursAt(s[1..], p, k);
      assert s[k + 1..k + 1 + |p|] == s[1..][k..k + |p|];
      assert OccursAt(s, p, k + 1);
    }
  }

  /** An occurrence in a suffix is an occurrence in the whole string. */
  lemma OccursInSuffix(s: string, p: string, j: nat)
    requires j <= |s| && Occurs(s[j..], p)
    ensures Occurs(s, p)
  {
    var k :| 0 <= k <= |s[j..]| - |p| && OccursAt(s[j..], p, k);
    assert s[j + k..j + k + |p|] == s[j..][k..k + |p|];
    assert OccursAt(s, p, j + k);
  }

  /** A suffix of a string without the pattern has none either. */
  lemma NoOccurrenceInSuffix(s: string, p: string, j: nat)
    requires j <= |s| && !Occurs(s, p)
    ensures !Occurs(s[j..], p)
  {
    forall k | 0 <= k <= |s[j..]| - |p| ensures !OccursAt(s[j..], p, k) {
      assert s[j..][k..k + |p|] == s[j + k..j + k + |p|];
      assert !OccursAt(s, p, j + k);
    }
  }

  /** A string shorter than the pattern cannot contain it. */
  lemma ShortHasNoOccurrence(s: string, p: string)
    requires |s| < |p|
    ensures !Occurs(s, p)
  {
  }

  // ---------------------------------------------------------------------
  // ReplaceAll facts

  /** Without an occurrence of the pattern, replacement changes nothing. */
  lemma {:induction false} ReplaceWithoutOccurrence(s: string, p: string, r: string)
    requires |p| > 0 && !Occurs(s, p)
    ensures ReplaceAll(s, p, r) == s
    decreases |s|
  {
    if |s| > 0 {
      assert StartsWith(s, p) ==> OccursAt(s, p, 0);
      OccursNotAtStart(s, p);
      ReplaceWithoutOccurrence(s[1..], p, r);
    }
  }

  /**
   * Up to the first character of `r` the output is the input, verbatim:
   * every inserted replacement starts with `r[0]`.
   */
  lemma {:induction false} PrefixVerbatim(s: string, p: string, r: string, k: nat)
    requires |p| > 0 && |r| > 0
    requires k <= |ReplaceAll(s, p, r)|
    requires forall i :: 0 <= i < k ==> ReplaceAll(s, p, r)[i] != r[0]
    ensures k <= |s| && ReplaceAll(s, p, r)[..k] == s[..k]
    decreases |s|
  {
    var out := ReplaceAll(s, p, r);
    assert |s| > 0 && StartsWith(s, p) ==> out[0] == r[0];
    if |s| == 0 {
    } else if StartsWith(s, p) {
    } else if k > 0 {
      var tail := ReplaceAll(s[1..], p, r);
      assert out == [s[0]] + tail;
      assert forall i :: 0 <= i < k - 1 ==> tail[i] == out[i + 1];
      PrefixVerbatim(s[1..], p, r, k - 1);
      assert s[..k] == [s[0]] + s[1..][..k - 1];
    }
  }

  /** `ReplaceAll` of a string that starts with the pattern. */
  lemma ReplaceAtStart(p: string, x: string, r: string)
    requires |p| > 0
    ensures ReplaceAll(p + x, p, r) == r + ReplaceAll(x, p, r)
  {
    assert StartsWith(p + x, p);
    assert (p + x)[|p|..] == x;
  }

  /** `ReplaceAll` of a string that does not start with the pattern. */
  lemma ReplaceNotAtStart(c: char, x: string, p: string, r: string)
    requires |p| > 0 && !StartsWith([c] + x, p)
    ensures ReplaceAll([c] + x, p, r) == [c] + ReplaceAll(x, p, r)
  {
    assert ([c] + x)[1..] == x;
  }

  /**
   * Escaping `p` to a marker `m` and un-escaping `m` back to `p` restores the
   * text, provided the text has no `m` of its own and the first character of
   * `m` is not repeated inside it.
   */
  lemma {:induction false} ReplaceRoundTrip(s: string, p: string, m: string)
    requires |p| > 0 && FirstCharUnique(m)
    requires !Occurs(s, m)
    ensures ReplaceAll(ReplaceAll(s, p, m), m, p) == s
    decreases |s|
  {
    if |s| == 0 {
    } else if StartsWith(s, p) {
      var rest := s[|p|..];
      assert !Occurs(rest, m) by { if Occurs(rest, m) { OccursInSuffix(s, m, |p|); } }
      ReplaceRoundTrip(rest, p, m);
      ReplaceAtStart(m, ReplaceAll(rest, p, m), p);
      assert s == p + rest;
    } else {
      var tail := ReplaceAll(s[1..], p, m);
      assert !Occurs(s[1..], m) by { if Occurs(s[1..], m) { OccursInSuffix(s, m, 1); } }
      ReplaceRoundTrip(s[1..], p, m);
      MarkerStartKept(s, p, m);
      assert !OccursAt(s, m, 0);
      ReplaceNotAtStart(s[0], tail, m, p);
      assert s == [s[0]] + s[1..];
    }
  }

  /**
   * A marker at the front of `s[0]` followed by the replaced rest was
   * already at the front of `s`: the marker's first character does not
   * recur in it, so the part after `s[0]` is the verbatim text.
   */
  lemma MarkerStartKept(s: string, p: string, m: string)
    requires |p| > 0 && |s| > 0 && FirstCharUnique(m)
    ensures StartsWith([s[0]] + ReplaceAll(s[1..], p, m), m) ==> OccursAt(s, m, 0)
  {
    var tail := ReplaceAll(s[1..], p, m);
    var k := |m| - 1;
    if StartsWith([s[0]] + tail, m) {
      assert forall i :: 0 <= i < k ==> tail[i] == m[i + 1];
      PrefixVerbatim(s[1..], p, m, k);
      assert s[..|m|] == [s[0]] + s[1..][..k];
    }
  }

  /**
   * Replacing with a text none of whose characters occur in `q` cannot
   * create an occurrence of `q` that was not already there.
   */
  lemma {:induction false} ReplaceCreatesNoOccurrence(s: string, p: string, r: string, q: string)
    requires |p| > 0 && |r| > 0 && DisjointChars(r, q)
    requires !Occurs(s, q)
    ensures !Occurs(ReplaceAll(s, p, r), q)
    decreases |s|
  {
    var out := ReplaceAll(s, p, r);
    assert |q| > 0 by { assert |q| == 0 ==> OccursAt(s, q, 0); }
    if |s| == 0 {
    } else if StartsWith(s, p) {
      var rest := s[|p|..];
      var tail := ReplaceAll(rest, p, r);
      assert !Occurs(rest, q) by { if Occurs(rest, q) { OccursInSuffix(s, q, |p|); } }
      ReplaceCreatesNoOccurrence(rest, p, r, q);
      assert out == r + tail;
      forall j | 0 <= j <= |out| - |q| ensures !OccursAt(out, q, j) {
        if j < |r| {
          assert out[j] == r[j] && r[j] !in q;
          assert out[j..j + |q|][0] == out[j];
        } else {
          OccursAfterPrefix(r, tail, q, j);
          assert !OccursAt(tail, q, j - |r|);
        }
      }
    } else {
      var tail := ReplaceAll(s[1..], p, r);
      assert !Occurs(s[1..], q) by { if Occurs(s[1..], q) { OccursInSuffix(s, q, 1); } }
      ReplaceCreatesNoOccurrence(s[1..], p, r, q);
      assert out == [s[0]] + tail;
      forall j | 0 <= j <= |out| - |q| ensures !OccursAt(out, q, j) {
        if j == 0 {
          if forall i :: 0 <= i < |q| ==> out[i] != r[0] {
            PrefixVerbatim(s, p, r, |q|);
            assert !OccursAt(s, q, 0);
          } else {
            assert r[0] !in q;
          }
        } else {
          OccursAfterPrefix([s[0]], tail, q, j);
          assert !OccursAt(tail, q, j - 1);
        }
      }
    }
  }

  /** Replacing by something no longer never lengthens the text. */
  lemma {:induction false} ReplaceNoLonger(s: string, p: string, r: string)
    requires |p| > 0 && |r| <= |p|
    ensures |ReplaceAll(s, p, r)| <= |s|
    decreases |s|
  {
    if |s| == 0 {
    } else if StartsWith(s, p) {
      ReplaceNoLonger(s[|p|..], p, r);
    } else {
      ReplaceNoLonger(s[1..], p, r);
    }
  }

  /** Replacing an occurring pattern by something shorter shortens the text. */
  lemma {:induction false} ReplaceShortens(s: string, p: string, r: string)
    requires |p| > 0 && |r| < |p| && Occurs(s, p)
    ensures |ReplaceAll(s, p, r)| < |s|
    decreases |s|
  {
    if StartsWith(s, p) {
      ReplaceNoLonger(s[|p|..], p, r);
    } else {
      OccursNotAtStart(s, p);
      ReplaceShortens(s[1..], p, r);
    }
  }

  /**
   * When no occurrence of `p` starts inside `x`, the scan copies `x` and
   * carries on with `y`.
   */
  lemma {:induction false} ReplaceAfterClearPrefix(x: string, y: string, p: string, r: string)
    requires |p| > 0
    requires forall k :: 0 <= k < |x| ==> !OccursAt(x + y, p, k)
    ensures ReplaceAll(x + y, p, r) == x + ReplaceAll(y, p, r)
    decreases |x|
  {
    if |x| > 0 {
      var s := x + y;
      assert StartsWith(s, p) ==> OccursAt(s, p, 0);
      assert s[1..] == x[1..] + y;
      forall k | 0 <= k < |x| - 1 ensures !OccursAt(x[1..] + y, p, k) {
        if OccursAt(x[1..] + y, p, k) {
          assert s[k + 1..k + 1 + |p|] == (x[1..] + y)[k..k + |p|];
          assert OccursAt(s, p, k + 1);
        }
      }
      ReplaceAfterClearPrefix(x[1..], y, p, r);
      assert s == [x[0]] + (x[1..] + y);
      ReplaceNotAtStart(x[0], x[1..] + y, p, r);
      calc {
        ReplaceAll(x + y, p, r);
        ReplaceAll([x[0]] + (x[1..] + y), p, r);
        [x[0]] + ReplaceAll(x[1..] + y, p, r);
        [x[0]] + (x[1..] + ReplaceAll(y, p, r));
        { assert x == [x[0]] + x[1..]; }
        x + ReplaceAll(y, p, r);
      }
    } else {
      assert x + y == y;
    }
  }
}
