/**
 The subset of Go's `strings` package that the make-file parser and the
 command runner use, restricted to ASCII white space: `TrimSpace`,
 `HasPrefix`, `Contains`/`Index` for one character, `Split` and `Join` on a
 one-character separator, `ReplaceAll` that deletes one character, and
 `Fields`.
 */
module Strings {

  /** The ASCII white space of Go's `unicode.IsSpace`: space, \t, \n, \v, \f, \r. */
  predicate IsSpace(c: char) {
    c == ' ' || c == '\t' || c == '\n' || c == '\U{0B}' || c == '\U{0C}' || c == '\r'
  }

  /** Every character of `s` is white space (true of the empty string). */
  predicate AllSpace(s: string) {
    forall i :: 0 <= i < |s| ==> IsSpace(s[i])
  }

  /** No character of `s` is white space. */
  predicate NoSpace(s: string) {
    forall i :: 0 <= i < |s| ==> !IsSpace(s[i])
  }

  /** A non-empty run of non-space characters: what `Fields` produces. */
  predicate IsWord(s: string) {
    s != [] && NoSpace(s)
  }

  /** `s` begins and ends with a non-space character, or is empty. */
  predicate IsTrimmed(s: string) {
    s == [] || (!IsSpace(s[0]) && !IsSpace(s[|s| - 1]))
  }

  /** `strings.HasPrefix(s, p)`. */
  predicate HasPrefix(s: string, p: string) {
    |p| <= |s| && s[..|p|] == p
  }

  /** Number of occurrences of `c` in `s`. */
  function Count(s: string, c: char): nat {
    if s == [] then 0 else (if s[0] == c then 1 else 0) + Count(s[1..], c)
  }

  /** Leading white space removed (`TrimLeftSuffix` says what is kept). */
  function TrimLeft(s: string): (r: string)
    ensures |r| <= |s|
    ensures AllSpace(s[..|s| - |r|])
    ensures r == [] || !IsSpace(r[0])
    decreases |s|
  {
    if s != [] && IsSpace(s[0]) then TrimLeft(s[1..]) else s
  }

  /** `TrimLeft` keeps a suffix of its input. */
  lemma {:induction false} TrimLeftSuffix(s: string)
    ensures TrimLeft(s) == s[|s| - |TrimLeft(s)|..]
    decreases |s|
  {
    if s != [] && IsSpace(s[0]) {
      TrimLeftSuffix(s[1..]);
    }
  }

  /** Trailing white space removed. */
  function TrimRight(s: string): (r: string)
    ensures |r| <= |s| && r == s[..|r|]
    ensures AllSpace(s[|r|..])
    ensures r == [] || !IsSpace(r[|r| - 1])
    ensures s != [] && !IsSpace(s[0]) ==> r != []
    decreases |s|
  {
    if s != [] && IsSpace(s[|s| - 1]) then TrimRight(s[..|s| - 1]) else s
  }

  /** `strings.TrimSpace`: leading and trailing white space removed. */
  function TrimSpace(s: string): (r: string)
    ensures IsTrimmed(r)
    ensures r == [] <==> AllSpace(s)
    ensures |r| <= |s|
  {
    var l := TrimLeft(s);
    var r := TrimRight(l);
    TrimLeftSuffix(s);
    assert l != [] ==> s[|s| - |l|] == l[0];
    assert l == [] ==> s[..|s| - |l|] == s;
    assert r != [] ==> !IsSpace(r[0]) by {
      if r != [] {
        assert r[0] == l[0];
      }
    }
    r
  }

  /** Trimming is the unique way to peel white space off both ends: the trimmed
      text is recovered from any white-space padding of it. */
  lemma {:induction false} TrimSpacePadded(pre: string, m: string, post: string)
    requires AllSpace(pre) && AllSpace(post) && IsTrimmed(m)
    ensures TrimSpace(pre + m + post) == m
  {
    var s := pre + m + post;
    if m == [] {
      assert AllSpace(s) by {
        assert s == pre + post;
        forall i | 0 <= i < |s| ensures IsSpace(s[i]) {
          if i < |pre| { assert s[i] == pre[i]; } else { assert s[i] == post[i - |pre|]; }
        }
      }
    } else {
      assert s == pre + (m + post);
      TrimLeftPadded(pre, m + post);
      TrimRightPadded(m, post);
    }
  }

  lemma {:induction false} TrimLeftPadded(pre: string, rest: string)
    requires AllSpace(pre) && (rest == [] || !IsSpace(rest[0]))
    ensures TrimLeft(pre + rest) == rest
    decreases |pre|
  {
    if pre == [] {
      assert pre + rest == rest;
    } else {
      assert (pre + rest)[1..] == pre[1..] + rest;
      TrimLeftPadded(pre[1..], rest);
    }
  }

  lemma {:induction false} TrimRightPadded(m: string, post: string)
    requires AllSpace(post) && m != [] && !IsSpace(m[|m| - 1])
    ensures TrimRight(m + post) == m
    decreases |post|
  {
    if post == [] {
      assert m + post == m;
    } else {
      var s := m + post;
      assert s[..|s| - 1] == m + post[..|post| - 1];
      TrimRightPadded(m, post[..|post| - 1]);
    }
  }

  /** `strings.Index(s, string(c))`: the first position of `c`, or -1. */
  function IndexOf(s: string, c: char): (i: int)
    ensures -1 <= i < |s|
    ensures i == -1 <==> c !in s
    ensures 0 <= i ==> s[i] == c && c !in s[..i]
  {
    if s == [] then -1
    else if s[0] == c then 0
    else
      var j := IndexOf(s[1..], c);
      assert s[1..] == s[1..];
      if j < 0 then
        assert c !in s by {
          forall k | 0 <= k < |s| ensures s[k] != c {
            if k > 0 { assert s[k] == s[1..][k - 1]; }
          }
        }
        -1
      else
        assert s[..j + 1] == [s[0]] + s[1..][..j];
        j + 1
  }

  /** The first `c` is the one right after a prefix that has none. */
  lemma IndexAfter(a: string, c: char, rest: string)
    requires c !in a
    ensures IndexOf(a + [c] + rest, c) == |a|
  {
    var s := a + [c] + rest;
    assert s[|a|] == c && s[..|a|] == a;
  }

  /** `strings.Join(parts, string(sep))`. */
  function Join(parts: seq<string>, sep: char): string
    decreases |parts|
  {
    if parts == [] then ""
    else if |parts| == 1 then parts[0]
    else parts[0] + [sep] + Join(parts[1..], sep)
  }

  /** `strings.Split(s, string(sep))`: the pieces between the separators, the
      empty ones included; never an empty list. */
  function Split(s: string, sep: char): (r: seq<string>)
    ensures |r| == Count(s, sep) + 1
    ensures forall k :: 0 <= k < |r| ==> sep !in r[k]
    ensures Join(r, sep) == s
    decreases |s|
  {
    var i := IndexOf(s, sep);
    if i < 0 then
      CountAbsent(s, sep);
      [s]
    else
      var tail := Split(s[i + 1..], sep);
      SplitStep(s, sep, i, tail);
      [s[..i]] + tail
  }

  /** The piece before the first separator, followed by the split of the rest,
      is a split of the whole. */
  lemma SplitStep(s: string, sep: char, i: int, tail: seq<string>)
    requires 0 <= i < |s| && s[i] == sep && sep !in s[..i]
    requires |tail| == Count(s[i + 1..], sep) + 1
    requires forall k :: 0 <= k < |tail| ==> sep !in tail[k]
    requires Join(tail, sep) == s[i + 1..]
    ensures |[s[..i]] + tail| == Count(s, sep) + 1
    ensures forall k :: 0 <= k < |[s[..i]] + tail| ==> sep !in ([s[..i]] + tail)[k]
    ensures Join([s[..i]] + tail, sep) == s
  {
    CountAtFirst(s, sep, i);
    JoinCons(s[..i], tail, sep);
    assert s[..i] + [sep] + s[i + 1..] == s;
    var r := [s[..i]] + tail;
    forall k | 0 <= k < |r| ensures sep !in r[k] {
      if k > 0 { assert r[k] == tail[k - 1]; }
    }
  }

  /** Counting from the first occurrence on. */
  lemma CountAtFirst(s: string, c: char, i: int)
    requires 0 <= i < |s| && s[i] == c && c !in s[..i]
    ensures Count(s, c) == 1 + Count(s[i + 1..], c)
  {
    assert s == s[..i] + ([c] + s[i + 1..]);
    CountConcat(s[..i], [c] + s[i + 1..], c);
    CountAbsent(s[..i], c);
    assert ([c] + s[i + 1..])[1..] == s[i + 1..];
  }

  lemma JoinCons(p: string, tail: seq<string>, sep: char)
    requires tail != []
    ensures Join([p] + tail, sep) == p + [sep] + Join(tail, sep)
  {
    assert ([p] + tail)[1..] == tail;
  }

  lemma {:induction false} CountAbsent(s: string, c: char)
    requires c !in s
    ensures Count(s, c) == 0
    decreases |s|
  {
    if s != [] {
      assert c !in s[1..] by {
        forall k | 0 <= k < |s| - 1 ensures s[1..][k] != c { assert s[1..][k] == s[k + 1]; }
      }
      CountAbsent(s[1..], c);
    }
  }

  lemma {:induction false} CountConcat(a: string, b: string, c: char)
    ensures Count(a + b, c) == Count(a, c) + Count(b, c)
    decreases |a|
  {
    if a == [] {
      assert a + b == b;
    } else {
      assert (a + b)[1..] == a[1..] + b;
      CountConcat(a[1..], b, c);
    }
  }

  /** The first piece ends at the first separator. */
  lemma SplitCons(p: string, sep: char, rest: string)
    requires sep !in p
    ensures Split(p + [sep] + rest, sep) == [p] + Split(rest, sep)
  {
    var s := p + [sep] + rest;
    IndexAfter(p, sep, rest);
    assert s[..|p|] == p;
    assert s[|p| + 1..] == rest;
  }

  /** Splitting undoes joining when no piece contains the separator. */
  lemma {:induction false} SplitJoin(parts: seq<string>, sep: char)
    requires parts != []
    requires forall k :: 0 <= k < |parts| ==> sep !in parts[k]
    ensures Split(Join(parts, sep), sep) == parts
    decreases |parts|
  {
    if |parts| > 1 {
      SplitCons(parts[0], sep, Join(parts[1..], sep));
      SplitJoin(parts[1..], sep);
      assert [parts[0]] + parts[1..] == parts;
    } else {
      assert sep !in Join(parts, sep);
    }
  }

  /** `strings.ReplaceAll(s, string(c), "")`: every `c` deleted, the rest kept in order. */
  function RemoveAll(s: string, c: char): (r: string)
    ensures c !in r
    ensures |r| == |s| - Count(s, c)
    decreases |s|
  {
    if s == [] then ""
    else if s[0] == c then RemoveAll(s[1..], c)
    else [s[0]] + RemoveAll(s[1..], c)
  }

  /** Deleting a character distributes over concatenation, so it keeps the
      order of the characters it does not delete. */
  lemma {:induction false} RemoveAllConcat(a: string, b: string, c: char)
    ensures RemoveAll(a + b, c) == RemoveAll(a, c) + RemoveAll(b, c)
    decreases |a|
  {
    if a == [] {
      assert a + b == b;
    } else {
      assert (a + b)[1..] == a[1..] + b;
      RemoveAllConcat(a[1..], b, c);
    }
  }

  /** Deleting a character that does not occur changes nothing. */
  lemma {:induction false} RemoveAllAbsent(s: string, c: char)
    requires c !in s
    ensures RemoveAll(s, c) == s
    decreases |s|
  {
    if s != [] {
      assert c !in s[1..] by {
        forall k | 0 <= k < |s| - 1 ensures s[1..][k] != c { assert s[1..][k] == s[k + 1]; }
      }
      RemoveAllAbsent(s[1..], c);
      assert [s[0]] + s[1..] == s;
    }
  }

  /** A character that is not the separator and occurs in no part does not
      occur in the joined text. */
  lemma {:induction false} JoinAvoids(parts: seq<string>, sep: char, c: char)
    requires c != sep
    requires forall k :: 0 <= k < |parts| ==> c !in parts[k]
    ensures c !in Join(parts, sep)
    decreases |parts|
  {
    if |parts| > 1 {
      JoinAvoids(parts[1..], sep, c);
      assert c !in parts[0];
    }
  }

  /** Length of the longest prefix of `s` that holds no white space. */
  function WordLength(s: string): (n: nat)
    ensures n <= |s|
    ensures NoSpace(s[..n])
    ensures n < |s| ==> IsSpace(s[n])
    decreases |s|
  {
    if s == [] || IsSpace(s[0]) then 0
    else
      var n := 1 + WordLength(s[1..]);
      assert s[..n] == [s[0]] + s[1..][..n - 1];
      n
  }

  /** `strings.Fields`: the maximal runs of non-space characters, left to right. */
  function Fields(s: string): (r: seq<string>)
    ensures forall k :: 0 <= k < |r| ==> IsWord(r[k])
    decreases |s|
  {
    var t := TrimLeft(s);
    if t == [] then []
    else
      var n := WordLength(t);
      [t[..n]] + Fields(t[n..])
  }

  /** `Fields` finds no word exactly when the text is all white space. */
  lemma FieldsEmpty(s: string)
    ensures Fields(s) == [] <==> AllSpace(s)
  {
    var t := TrimLeft(s);
    TrimLeftSuffix(s);
    if t == [] {
      assert s[..|s|] == s;
    } else {
      assert s[|s| - |t|] == t[0];
    }
  }

  /** The words hold no character the text does not hold. */
  lemma {:induction false} FieldsAvoid(s: string, c: char)
    requires c !in s
    ensures forall k :: 0 <= k < |Fields(s)| ==> c !in Fields(s)[k]
    decreases |s|
  {
    var t := TrimLeft(s);
    TrimLeftSuffix(s);
    if t != [] {
      var n := WordLength(t);
      assert c !in t by {
        forall k | 0 <= k < |t| ensures t[k] != c { assert t[k] == s[|s| - |t| + k]; }
      }
      assert c !in t[..n] by {
        forall k | 0 <= k < n ensures t[..n][k] != c { assert t[..n][k] == t[k]; }
      }
      assert c !in t[n..] by {
        forall k | 0 <= k < |t| - n ensures t[n..][k] != c { assert t[n..][k] == t[n + k]; }
      }
      FieldsAvoid(t[n..], c);
      var r := Fields(s);
      assert r == [t[..n]] + Fields(t[n..]);
      forall k | 0 <= k < |r| ensures c !in r[k] {
        if k > 0 { assert r[k] == Fields(t[n..])[k - 1]; }
      }
    }
  }

  /** All characters of `s` that are not white space, in order. */
  function Unspaced(s: string): string
    decreases |s|
  {
    if s == [] then "" else (if IsSpace(s[0]) then "" else [s[0]]) + Unspaced(s[1..])
  }

  /** Concatenation of a list of strings. */
  function Concat(parts: seq<string>): string
    decreases |parts|
  {
    if parts == [] then "" else parts[0] + Concat(parts[1..])
  }

  lemma {:induction false} UnspacedConcat(a: string, b: string)
    ensures Unspaced(a + b) == Unspaced(a) + Unspaced(b)
    decreases |a|
  {
    if a == [] {
      assert a + b == b;
    } else {
      assert (a + b)[1..] == a[1..] + b;
      UnspacedConcat(a[1..], b);
    }
  }

  lemma {:induction false} UnspacedAllSpace(s: string)
    requires AllSpace(s)
    ensures Unspaced(s) == ""
    decreases |s|
  {
    if s != [] {
      UnspacedAllSpace(s[1..]);
    }
  }

  lemma {:induction false} UnspacedNoSpace(s: string)
    requires NoSpace(s)
    ensures Unspaced(s) == s
    decreases |s|
  {
    if s != [] {
      UnspacedNoSpace(s[1..]);
      assert [s[0]] + s[1..] == s;
    }
  }

  /** Leading white space has no characters to keep. */
  lemma UnspacedTrimLeft(s: string)
    ensures Unspaced(s) == Unspaced(TrimLeft(s))
  {
    var t := TrimLeft(s);
    var pre := s[..|s| - |t|];
    TrimLeftSuffix(s);
    assert s == pre + t;
    UnspacedConcat(pre, t);
    UnspacedAllSpace(pre);
  }

  /** The first word is kept whole. */
  lemma UnspacedWord(t: string, n: nat)
    requires n == WordLength(t)
    ensures Unspaced(t) == t[..n] + Unspaced(t[n..])
  {
    assert t == t[..n] + t[n..];
    UnspacedConcat(t[..n], t[n..]);
    UnspacedNoSpace(t[..n]);
  }

  lemma ConcatCons(x: string, r: seq<string>)
    ensures Concat([x] + r) == x + Concat(r)
  {
    assert ([x] + r)[1..] == r;
  }

  /** `Fields` loses exactly the white space: gluing its words back together
      gives the input with its white space deleted, in the original order. */
  lemma {:induction false} FieldsKeepOrder(s: string)
    ensures Concat(Fields(s)) == Unspaced(s)
    decreases |s|
  {
    var t := TrimLeft(s);
    UnspacedTrimLeft(s);
    if t != [] {
      var n := WordLength(t);
      UnspacedWord(t, n);
      FieldsKeepOrder(t[n..]);
      ConcatCons(t[..n], Fields(t[n..]));
    }
  }

  /** `Fields` undoes joining words with single spaces. */
  lemma {:induction false} FieldsJoin(words: seq<string>)
    requires forall k :: 0 <= k < |words| ==> IsWord(words[k])
    ensures Fields(Join(words, ' ')) == words
    decreases |words|
  {
    if words == [] {
    } else {
      var w := words[0];
      var s := Join(words, ' ');
      var rest := if |words| == 1 then "" else [' '] + Join(words[1..], ' ');
      assert s == w + rest;
      assert TrimLeft(s) == s by {
        assert s[0] == w[0];
      }
      assert WordLength(s) == |w| by {
        WordLengthOfWord(w, rest);
      }
      assert s[..|w|] == w;
      assert s[|w|..] == rest;
      if |words| == 1 {
        assert Fields(rest) == [];
      } else {
        FieldsJoin(words[1..]);
        assert Fields(rest) == Fields(Join(words[1..], ' ')) by {
          assert TrimLeft(rest) == TrimLeft(Join(words[1..], ' ')) by {
            assert rest[1..] == Join(words[1..], ' ');
          }
        }
      }
      assert [w] + words[1..] == words;
    }
  }

  lemma {:induction false} WordLengthOfWord(w: string, rest: string)
    requires NoSpace(w)
    requires rest == [] || IsSpace(rest[0])
    ensures WordLength(w + rest) == |w|
    decreases |w|
  {
    if w == [] {
      assert w + rest == rest;
    } else {
      assert (w + rest)[1..] == w[1..] + rest;
      WordLengthOfWord(w[1..], rest);
    }
  }

  /** The text `seps[0] + words[0] + seps[1] + ... + words[n - 1] + seps[n]`. */
  function Interleave(words: seq<string>, seps: seq<string>): string
    requires |seps| == |words| + 1
    decreases |words|
  {
    if words == [] then seps[0] else seps[0] + words[0] + Interleave(words[1..], seps[1..])
  }

  /** Leading white space is trimmed away whatever follows it. */
  lemma {:induction false} TrimLeftSkip(pre: string, x: string)
    requires AllSpace(pre)
    ensures TrimLeft(pre + x) == TrimLeft(x)
    decreases |pre|
  {
    if pre == [] {
      assert pre + x == x;
    } else {
      assert (pre + x)[0] == pre[0];
      assert (pre + x)[1..] == pre[1..] + x;
      TrimLeftSkip(pre[1..], x);
    }
  }

  /** `Fields` looks only at the text after the leading white space. */
  lemma FieldsByTrim(a: string, b: string)
    requires TrimLeft(a) == TrimLeft(b)
    ensures Fields(a) == Fields(b)
  {
  }

  /** A word followed by white space or nothing is the first field. */
  lemma FieldsWord(w: string, r: string)
    requires IsWord(w) && (r == [] || IsSpace(r[0]))
    ensures Fields(w + r) == [w] + Fields(r)
  {
    var t := w + r;
    WordLengthOfWord(w, r);
    assert t[0] == w[0];
    TrimLeftPadded("", t);
    assert "" + t == t;
    assert t[..|w|] == w && t[|w|..] == r;
  }

  /** `Fields` cuts at every run of white space, however long and whatever
      its characters, and ignores the white space at either end. */
  lemma {:induction false} FieldsSpaced(words: seq<string>, seps: seq<string>)
    requires |seps| == |words| + 1
    requires forall k :: 0 <= k < |words| ==> IsWord(words[k])
    requires forall k :: 0 <= k < |seps| ==> AllSpace(seps[k])
    requires forall k :: 0 < k < |words| ==> seps[k] != []
    ensures Fields(Interleave(words, seps)) == words
    decreases |words|
  {
    if words == [] {
      FieldsEmpty(seps[0]);
    } else {
      var w := words[0];
      var r := Interleave(words[1..], seps[1..]);
      assert Interleave(words, seps) == seps[0] + (w + r);
      TrimLeftSkip(seps[0], w + r);
      FieldsByTrim(seps[0] + (w + r), w + r);
      assert r == [] || IsSpace(r[0]) by {
        if |words| > 1 {
          assert r == seps[1] + words[1] + Interleave(words[2..], seps[2..]);
          assert r[0] == seps[1][0];
        }
      }
      FieldsWord(w, r);
      forall k | 0 <= k < |words| - 1 ensures IsWord(words[1..][k]) && (k > 0 ==> seps[1..][k] != []) {
        assert words[1..][k] == words[k + 1] && seps[1..][k] == seps[k + 1];
      }
      forall k | 0 <= k < |seps| - 1 ensures AllSpace(seps[1..][k]) {
        assert seps[1..][k] == seps[k + 1];
      }
      FieldsSpaced(words[1..], seps[1..]);
      assert [w] + words[1..] == words;
    }
  }
}
