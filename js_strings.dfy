/**
 * The JavaScript string operations server.js relies on: `String.prototype.length`
 * (UTF-16 code units), `indexOf` for a non-empty substring, `split(sep)[0]`, `substring(0, n)`
 * and `replace` with a string pattern and a replacement free of `$` (first occurrence only;
 * JavaScript would expand `$&`, `$$`, `` $` `` and `$'` in the replacement, which is not modelled).
 */
module JsStrings {
  import opened Wrappers

  /** True when the pattern `p` occurs in `s` starting at index `i`. */
  predicate OccursAt(s: string, p: string, i: nat) {
    i + |p| <= |s| && s[i..i + |p|] == p
  }

  /** A character outside the Basic Multilingual Plane takes two UTF-16 code units. */
  predicate IsAstral(c: char) {
    c as int > 0xFFFF
  }

  /** `s.length` in JavaScript: the number of UTF-16 code units of `s`. */
  function Utf16Length(s: string): (n: nat)
    ensures |s| <= n <= 2 * |s|
    ensures n == |s| <==> forall i :: 0 <= i < |s| ==> !IsAstral(s[i])
  {
    if s == [] then 0
    else
      var rest := Utf16Length(s[1..]);
      assert forall i :: 1 <= i < |s| ==> s[i] == s[1..][i - 1];
      (if IsAstral(s[0]) then 2 else 1) + rest
  }

  /**
   * The first index at or after `from` where `p` occurs in `s`, as `s.indexOf(p, from)` finds it
   * for a non-empty `p` (for an empty `p` JavaScript clamps `from` to `|s|` instead).
   */
  function FindFrom(s: string, p: string, from: nat): (r: Option<nat>)
    decreases |s| - from
    ensures r.Some? ==> from <= r.value && OccursAt(s, p, r.value)
    ensures r.Some? ==> forall j :: from <= j < r.value ==> !OccursAt(s, p, j)
    ensures r.None? ==> forall j :: from <= j ==> !OccursAt(s, p, j)
  {
    if from + |p| > |s| then None
    else if s[from..from + |p|] == p then Some(from)
    else FindFrom(s, p, from + 1)
  }

  /** `s.indexOf(p)`, with `None` standing for -1. */
  function IndexOf(s: string, p: string): (r: Option<nat>)
  {
    FindFrom(s, p, 0)
  }

  /** A one-character pattern occurs exactly where that character stands. */
  lemma OccursAtChar(s: string, c: char, i: nat)
    ensures OccursAt(s, [c], i) <==> i < |s| && s[i] == c
  {
    if i < |s| {
      assert s[i..i + 1] == [s[i]];
    }
  }

  /** The last index of character `c` in `s`. */
  function LastIndex(s: string, c: char): (r: Option<nat>)
    ensures r.Some? ==> r.value < |s| && s[r.value] == c
    ensures r.Some? ==> forall j :: r.value < j < |s| ==> s[j] != c
    ensures r.None? ==> forall j :: 0 <= j < |s| ==> s[j] != c
  {
    if s == [] then None
    else if s[|s| - 1] == c then Some(|s| - 1)
    else
      var r := LastIndex(s[..|s| - 1], c);
      assert forall j :: 0 <= j < |s| - 1 ==> s[j] == s[..|s| - 1][j];
      r
  }

  /** `s.split(sep)[0]` for a one-character separator: the text before the first `sep`. */
  function BeforeFirst(s: string, sep: char): string
  {
    match IndexOf(s, [sep])
    case None => s
    case Some(i) => s[..i]
  }

  /**
   * `split(sep)[0]` is the longest prefix of `s` free of `sep`: it is a prefix, it holds
   * no `sep`, and either it is all of `s` or `sep` follows it.
   */
  lemma BeforeFirstSpec(s: string, sep: char)
    ensures |BeforeFirst(s, sep)| <= |s| && BeforeFirst(s, sep) == s[..|BeforeFirst(s, sep)|]
    ensures forall j :: 0 <= j < |BeforeFirst(s, sep)| ==> BeforeFirst(s, sep)[j] != sep
    ensures BeforeFirst(s, sep) == s || s[|BeforeFirst(s, sep)|] == sep
  {
    var r := BeforeFirst(s, sep);
    forall j | 0 <= j < |r|
      ensures r[j] != sep
    {
      OccursAtChar(s, sep, j);
    }
    match IndexOf(s, [sep])
    case None =>
    case Some(i) => OccursAtChar(s, sep, i);
  }

  /** `s.substring(0, n)`: the first `n` characters, or all of `s` when it is shorter. */
  function Take(s: string, n: nat): (r: string)
    ensures |r| == if |s| <= n then |s| else n
    ensures r == s[..|r|]
  {
    if |s| <= n then s else s[..n]
  }

  /**
   * `s.replace(p, q)` with a string pattern and a replacement `q` free of `$`: only the first
   * occurrence of `p` is replaced, by `q` taken literally.
   */
  function ReplaceFirst(s: string, p: string, q: string): string
  {
    match IndexOf(s, p)
    case None => s
    case Some(i) => s[..i] + q + s[i + |p|..]
  }

  /** When `p` does not occur in `s`, `replace` returns `s` unchanged. */
  lemma ReplaceFirstAbsent(s: string, p: string, q: string)
    requires forall j: nat :: !OccursAt(s, p, j)
    ensures ReplaceFirst(s, p, q) == s
  {
  }

  /**
   * When the first occurrence of `p` is at `i`, `replace` swaps exactly that occurrence for
   * `q` and keeps everything before and after it; the length changes by `|q| - |p|`.
   */
  lemma ReplaceFirstAt(s: string, p: string, q: string, i: nat)
    requires OccursAt(s, p, i)
    requires forall j: nat :: j < i ==> !OccursAt(s, p, j)
    ensures ReplaceFirst(s, p, q) == s[..i] + q + s[i + |p|..]
    ensures |ReplaceFirst(s, p, q)| == |s| - |p| + |q|
  {
    var k := IndexOf(s, p);
    assert k.Some?;
    assert k.value == i;
  }
}
