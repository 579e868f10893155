/** Models of the two Rust `str` operations the request parser is built from:
    `split_once` (the first occurrence of the separator wins) and `split`
    (every occurrence splits, empty pieces are kept, `"".split(sep)` is `[""]`).
    Characters stand for the text; the separators used by the parser are
    ASCII, so splitting characters and splitting UTF-8 bytes agree. */
module RustStr {

  datatype Option<+T> = None | Some(value: T)

  /** `sep` occurs in `s` starting at index `i`. */
  predicate OccursAt(s: string, sep: string, i: nat) {
    i + |sep| <= |s| && s[i..i + |sep|] == sep
  }

  /** No occurrence of `sep` in `s` starts before index `n`. */
  predicate NoneBefore(s: string, sep: string, n: nat) {
    forall i: nat :: i < n ==> !OccursAt(s, sep, i)
  }

  /** `s.contains(sep)` */
  predicate Contains(s: string, sep: string) {
    exists i: nat :: i <= |s| && OccursAt(s, sep, i)
  }

  /** No character of `s` is one of the characters of `chars`. */
  predicate FreeOf(s: string, chars: string) {
    forall c :: c in s ==> c !in chars
  }

  /** The index of the first occurrence of `sep` in `s` at or after `from`
      (the search behind `str::find`). */
  function FindFrom(s: string, sep: string, from: nat): (r: Option<nat>)
    requires |sep| > 0
    decreases |s| - from
    ensures r.Some? ==> from <= r.value && OccursAt(s, sep, r.value)
    ensures r.Some? ==> forall i: nat :: from <= i < r.value ==> !OccursAt(s, sep, i)
    ensures r.None? ==> forall i: nat :: from <= i ==> !OccursAt(s, sep, i)
  {
    if from + |sep| > |s| then None
    else if s[from..from + |sep|] == sep then Some(from)
    else FindFrom(s, sep, from + 1)
  }

  /** `s.split_once(sep)`: the text before and after the first occurrence. */
  function SplitOnce(s: string, sep: string): (r: Option<(string, string)>)
    requires |sep| > 0
    ensures r.None? <==> !Contains(s, sep)
    ensures r.Some? ==> s == r.value.0 + sep + r.value.1
    ensures r.Some? ==> OccursAt(s, sep, |r.value.0|) && NoneBefore(s, sep, |r.value.0|)
  {
    match FindFrom(s, sep, 0)
    case None => None
    case Some(k) =>
      assert s == s[..k] + s[k..k + |sep|] + s[k + |sep|..];
      Some((s[..k], s[k + |sep|..]))
  }

  /** `pieces.join(sep)` */
  function Join(pieces: seq<string>, sep: string): string {
    if |pieces| == 0 then ""
    else if |pieces| == 1 then pieces[0]
    else pieces[0] + sep + Join(pieces[1..], sep)
  }

  /** `s.split(sep).collect::<Vec<_>>()`: the pieces between consecutive
      occurrences, scanning left to right. The contract fixes the pieces
      only for a separator that cannot overlap itself, such as `" "` and
      `"\r\n"`; for `"aa"` and `"aaa"` both `["", "a"]` (the result) and
      `["a", ""]` join back with no piece holding the separator. */
  function Split(s: string, sep: string): (r: seq<string>)
    requires |sep| > 0
    decreases |s|
    ensures |r| >= 1 && Join(r, sep) == s
    ensures forall i :: 0 <= i < |r| ==> !Contains(r[i], sep)
    ensures !Contains(s, sep) ==> r == [s]
  {
    match SplitOnce(s, sep)
    case None => [s]
    case Some((before, after)) =>
      assert s == before + (sep + after);
      PrefixWithoutOccurrence(before, sep + after, sep);
      var r := [before] + Split(after, sep);
      assert r[0] == before && r[1..] == Split(after, sep);
      r
  }

  /** A prefix in which no occurrence of `sep` starts contains no `sep`. */
  lemma PrefixWithoutOccurrence(a: string, t: string, sep: string)
    requires |sep| > 0 && NoneBefore(a + t, sep, |a|)
    ensures !Contains(a, sep)
  {
    forall i: nat | i < |a| ensures !OccursAt(a, sep, i) {
      assert !OccursAt(a + t, sep, i);
      if i + |sep| <= |a| {
        assert (a + t)[i..i + |sep|] == a[i..i + |sep|];
      }
    }
  }

  /** Text free of every character of `sep` holds no occurrence of `sep`,
      and no occurrence starts inside it whatever follows it. */
  lemma FreeOfNoOccurrence(s: string, t: string, sep: string)
    requires |sep| > 0 && FreeOf(s, sep)
    ensures NoneBefore(s + t, sep, |s|) && !Contains(s, sep)
  {
    forall i: nat | i < |s| ensures !OccursAt(s + t, sep, i) {
      assert s[i] in s && sep[0] in sep;
      if i + |sep| <= |s + t| {
        assert (s + t)[i..i + |sep|][0] == s[i];
      }
    }
    PrefixWithoutOccurrence(s, t, sep);
  }

  /** `split_once` returns the split at an occurrence of `sep` exactly when
      no earlier occurrence exists. */
  lemma SplitOnceAt(s: string, sep: string, a: string, b: string)
    requires |sep| > 0 && s == a + sep + b && NoneBefore(s, sep, |a|)
    ensures SplitOnce(s, sep) == Some((a, b))
  {
    assert s[|a|..|a| + |sep|] == sep;
    assert OccursAt(s, sep, |a|);
    var r := SplitOnce(s, sep);
    var k := |r.value.0|;
    assert OccursAt(s, sep, k);
    assert k == |a|;
    assert r.value.0 == s[..k] == a;
    assert r.value.1 == s[k + |sep|..] == b;
  }

  /** With a one-character separator, `split_once` fails exactly when the
      character is absent, and the text before the split never holds it. */
  lemma SplitOnceChar(s: string, c: char)
    ensures SplitOnce(s, [c]).None? <==> c !in s
    ensures SplitOnce(s, [c]).Some? ==> c !in SplitOnce(s, [c]).value.0
  {
    if c in s {
      var i :| 0 <= i < |s| && s[i] == c;
      assert OccursAt(s, [c], i);
    }
    if SplitOnce(s, [c]).Some? {
      CharAbsentBefore(s, c, |SplitOnce(s, [c]).value.0|);
    }
  }

  lemma CharAbsentBefore(s: string, c: char, n: nat)
    requires n <= |s| && NoneBefore(s, [c], n)
    ensures c !in s[..n]
  {
    forall j | 0 <= j < n ensures s[j] != c {
      assert !OccursAt(s, [c], j);
      assert s[j..j + 1] == [s[j]];
    }
  }

  /** Splitting the join of pieces that hold none of the separator's
      characters gives back the pieces. */
  lemma {:induction false} SplitJoin(pieces: seq<string>, sep: string)
    requires |sep| > 0 && |pieces| >= 1
    requires forall i :: 0 <= i < |pieces| ==> FreeOf(pieces[i], sep)
    ensures Split(Join(pieces, sep), sep) == pieces
    decreases |pieces|
  {
    if |pieces| == 1 {
      FreeOfNoOccurrence(pieces[0], "", sep);
    } else {
      var s, rest := Join(pieces, sep), Join(pieces[1..], sep);
      FreeOfNoOccurrence(pieces[0], sep + rest, sep);
      assert s == pieces[0] + sep + rest == pieces[0] + (sep + rest);
      SplitOnceAt(s, sep, pieces[0], rest);
      assert Split(s, sep) == [pieces[0]] + Split(rest, sep);
      SplitJoin(pieces[1..], sep);
      assert pieces == [pieces[0]] + pieces[1..];
    }
  }

  lemma JoinThree(pieces: seq<string>, sep: string)
    requires |pieces| == 3
    ensures Join(pieces, sep) == pieces[0] + sep + pieces[1] + sep + pieces[2]
  {
    assert pieces[1..][1..] == [pieces[2]];
    assert Join(pieces[1..], sep) == pieces[1] + sep + pieces[2];
  }

  /** Concatenation regrouped; stated apart so that proofs about the parse
      need not rediscover it in a large context. */
  lemma Regroup(a: string, b: string, c: string, d: string, e: string)
    ensures a + b + c + d + e == a + b + (c + d + e)
  {
  }
}
