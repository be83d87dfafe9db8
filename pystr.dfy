/**
 Python string operations over `seq<char>`. The dashboard itself calls three
 of them: `str.replace` with a one-character pattern, `str.strip()` and
 `str.split(sep)` with a one-character separator. The others are here to
 define those three or to state their properties: `str.isspace` (the set
 `strip()` removes), `str.lstrip` and `str.rstrip` (which make up `strip()`),
 `str.count` for one character, `sep.join(parts)` (the inverse of `split`)
 and a character filter.
 */
module PyStr {

  /** The characters Python's `str.isspace` (and so `str.strip()`) treats as whitespace. */
  predicate IsSpace(c: char)
  {
    || ('\t' <= c <= '\r')
    || ('\U{1C}' <= c <= '\U{1F}')
    || c == ' '
    || c == '\U{85}'
    || c == '\U{A0}'
    || c == '\U{1680}'
    || ('\U{2000}' <= c <= '\U{200A}')
    || c == '\U{2028}'
    || c == '\U{2029}'
    || c == '\U{202F}'
    || c == '\U{205F}'
    || c == '\U{3000}'
  }

  /** Every character of `s` is whitespace. */
  predicate AllSpace(s: string)
  {
    forall i :: 0 <= i < |s| ==> IsSpace(s[i])
  }

  /** `s` neither starts nor ends with whitespace. */
  predicate Trimmed(s: string)
  {
    s == [] || (!IsSpace(s[0]) && !IsSpace(s[|s| - 1]))
  }

  /** `s.count(c)` for a single character `c`. */
  function Count(s: string, c: char): (n: nat)
    ensures n <= |s|
    ensures n == 0 <==> c !in s
  {
    if s == [] then 0 else (if s[0] == c then 1 else 0) + Count(s[1..], c)
  }

  lemma {:induction false} CountAppend(s: string, t: string, c: char)
    ensures Count(s + t, c) == Count(s, c) + Count(t, c)
  {
    if s == [] {
      assert s + t == t;
    } else {
      assert (s + t)[0] == s[0];
      assert (s + t)[1..] == s[1..] + t;
      CountAppend(s[1..], t, c);
    }
  }

  /** `s.replace(pat, rep)` where `pat` is one character: every `pat` becomes `rep`. */
  function ReplaceChar(s: string, pat: char, rep: string): (r: string)
    ensures pat !in rep ==> pat !in r
  {
    if s == [] then [] else (if s[0] == pat then rep else [s[0]]) + ReplaceChar(s[1..], pat, rep)
  }

  /** With a one-character replacement, the result has the input's length and differs only where `pat` was. */
  lemma {:induction false} ReplaceCharSubstitute(s: string, pat: char, b: char)
    ensures |ReplaceChar(s, pat, [b])| == |s|
    ensures forall i :: 0 <= i < |s| ==> ReplaceChar(s, pat, [b])[i] == (if s[i] == pat then b else s[i])
  {
    if s != [] {
      ReplaceCharSubstitute(s[1..], pat, b);
      var r := ReplaceChar(s, pat, [b]);
      forall i | 1 <= i < |s| ensures r[i] == (if s[i] == pat then b else s[i]) {
        assert r[i] == ReplaceChar(s[1..], pat, [b])[i - 1];
      }
    }
  }

  /** With an empty replacement, the result is the input with every `pat` deleted and all else kept in order. */
  lemma {:induction false} ReplaceCharDelete(s: string, pat: char)
    ensures ReplaceChar(s, pat, []) == Filter(s, c => c != pat)
  {
    if s != [] {
      ReplaceCharDelete(s[1..], pat);
    }
  }

  lemma {:induction false} ReplaceCharAppend(s: string, t: string, pat: char, rep: string)
    ensures ReplaceChar(s + t, pat, rep) == ReplaceChar(s, pat, rep) + ReplaceChar(t, pat, rep)
  {
    if s == [] {
      assert s + t == t;
    } else {
      assert (s + t)[0] == s[0];
      assert (s + t)[1..] == s[1..] + t;
      ReplaceCharAppend(s[1..], t, pat, rep);
    }
  }

  /** A string without `pat` is left as it is. */
  lemma {:induction false} ReplaceCharAbsent(s: string, pat: char, rep: string)
    requires pat !in s
    ensures ReplaceChar(s, pat, rep) == s
  {
    if s != [] {
      ReplaceCharAbsent(s[1..], pat, rep);
    }
  }

  /** Deleting `pat` keeps the number of every other character. */
  lemma {:induction false} CountDelete(s: string, pat: char, c: char)
    requires c != pat
    ensures Count(ReplaceChar(s, pat, []), c) == Count(s, c)
    ensures Count(ReplaceChar(s, pat, []), pat) == 0
  {
    if s != [] {
      CountDelete(s[1..], pat, c);
      var head := if s[0] == pat then [] else [s[0]];
      CountAppend(head, ReplaceChar(s[1..], pat, []), c);
      CountAppend(head, ReplaceChar(s[1..], pat, []), pat);
    }
  }

  /** Replacing `pat` by the single character `b` adds each `pat` to the count of `b`. */
  lemma {:induction false} CountSubstitute(s: string, pat: char, b: char)
    requires b != pat
    ensures Count(ReplaceChar(s, pat, [b]), b) == Count(s, b) + Count(s, pat)
  {
    if s != [] {
      CountSubstitute(s[1..], pat, b);
      var head := if s[0] == pat then [b] else [s[0]];
      CountAppend(head, ReplaceChar(s[1..], pat, [b]), b);
    }
  }

  /** `s.lstrip()`: the suffix of `s` that starts at its first non-whitespace character. */
  function LStrip(s: string): (r: string)
    ensures |r| <= |s| && r == s[|s| - |r|..]
    ensures AllSpace(s[..|s| - |r|])
    ensures r == [] || !IsSpace(r[0])
  {
    if s != [] && IsSpace(s[0]) then
      var r := LStrip(s[1..]);
      var k := |s| - |r|;
      assert AllSpace(s[..k]) by {
        forall i | 0 <= i < k ensures IsSpace(s[..k][i]) {
          if i > 0 {
            assert s[..k][i] == s[1..][..k - 1][i - 1];
          }
        }
      }
      r
    else s
  }

  /** `s.rstrip()`: the prefix of `s` that ends at its last non-whitespace character. */
  function RStrip(s: string): (r: string)
    ensures |r| <= |s| && r == s[..|r|]
    ensures AllSpace(s[|r|..])
    ensures r == [] || !IsSpace(r[|r| - 1])
  {
    if s != [] && IsSpace(s[|s| - 1]) then
      var r := RStrip(s[..|s| - 1]);
      var k := |r|;
      assert AllSpace(s[k..]) by {
        forall i | 0 <= i < |s| - k ensures IsSpace(s[k..][i]) {
          if i < |s| - 1 - k {
            assert s[k..][i] == s[..|s| - 1][k..][i];
          }
        }
      }
      r
    else s
  }

  /** `s.strip()`: `s` with its leading and trailing whitespace removed. */
  function Strip(s: string): (r: string)
    ensures Trimmed(r)
  {
    RStrip(LStrip(s))
  }

  /** What `lstrip` removes is a whitespace prefix. */
  lemma LStripParts(s: string) returns (a: string)
    ensures s == a + LStrip(s) && AllSpace(a)
  {
    var l := LStrip(s);
    var k := |s| - |l|;
    a := s[..k];
    assert l == s[k..];
    assert s == s[..k] + s[k..];
  }

  /** What `rstrip` removes is a whitespace suffix. */
  lemma RStripParts(s: string) returns (b: string)
    ensures s == RStrip(s) + b && AllSpace(b)
  {
    var r := RStrip(s);
    var k := |r|;
    b := s[k..];
    assert r == s[..k];
    assert s == s[..k] + s[k..];
  }

  /** Regrouping a concatenation; as a separate lemma it keeps sequence associativity out of the proofs that use it. */
  lemma SeqAssoc(x: string, y: string, z: string) ensures x + y + z == x + (y + z) {}

  /** What `strip` removes is whitespace in front of and behind what it keeps. */
  lemma StripParts(s: string) returns (a: string, b: string)
    ensures s == a + Strip(s) + b
    ensures AllSpace(a) && AllSpace(b)
  {
    a := LStripParts(s);
    b := RStripParts(LStrip(s));
    SeqAssoc(a, Strip(s), b);
  }

  /** `replace` on a one-character string. */
  lemma ReplaceCharSingle(c: char, pat: char, rep: string)
    ensures ReplaceChar([c], pat, rep) == if c == pat then rep else [c]
  {
    assert [c][0] == c && [c][1..] == [];
    var head := if c == pat then rep else [c];
    assert ReplaceChar([c], pat, rep) == head + ReplaceChar([], pat, rep);
    assert head + [] == head;
  }

  /** Whitespace in front of a string does not change what `lstrip` leaves. */
  lemma {:induction false} LStripSpacePrefix(a: string, t: string)
    requires AllSpace(a)
    ensures LStrip(a + t) == LStrip(t)
  {
    if a == [] {
      assert a + t == t;
    } else {
      assert (a + t)[0] == a[0];
      assert (a + t)[1..] == a[1..] + t;
      LStripSpacePrefix(a[1..], t);
    }
  }

  /** Whitespace after a string does not change what `rstrip` leaves. */
  lemma {:induction false} RStripSpaceSuffix(t: string, b: string)
    requires AllSpace(b)
    ensures RStrip(t + b) == RStrip(t)
  {
    if b == [] {
      assert t + b == t;
    } else {
      var b' := b[..|b| - 1];
      assert (t + b)[|t + b| - 1] == b[|b| - 1];
      assert (t + b)[..|t + b| - 1] == t + b';
      RStripSpaceSuffix(t, b');
    }
  }

  /** `lstrip` stops inside `m` when `m` holds a non-whitespace character. */
  lemma {:induction false} LStripAppend(m: string, b: string)
    ensures LStrip(m) != [] ==> LStrip(m + b) == LStrip(m) + b
    ensures LStrip(m) == [] ==> LStrip(m + b) == LStrip(b)
  {
    if m == [] {
      assert m + b == b;
    } else {
      assert (m + b)[0] == m[0];
      assert (m + b)[1..] == m[1..] + b;
      if IsSpace(m[0]) {
        LStripAppend(m[1..], b);
      }
    }
  }

  /** `strip` ignores whitespace added at either end. */
  lemma StripSpaceEnds(a: string, m: string, b: string)
    requires AllSpace(a) && AllSpace(b)
    ensures Strip(a + m + b) == Strip(m)
  {
    assert a + m + b == a + (m + b);
    LStripSpacePrefix(a, m + b);
    LStripAppend(m, b);
    if LStrip(m) != [] {
      RStripSpaceSuffix(LStrip(m), b);
    } else {
      assert LStrip(b) == [] by {
        LStripSpacePrefix(b, []);
        assert b + [] == b;
      }
    }
  }

  /** A string without whitespace at its ends, padded with whitespace, strips back to itself. */
  lemma StripExact(a: string, m: string, b: string)
    requires AllSpace(a) && AllSpace(b) && Trimmed(m)
    ensures Strip(a + m + b) == m
  {
    StripSpaceEnds(a, m, b);
    if m != [] {
      assert RStrip(m) == m;
    }
  }

  /**
   `s.split(sep)` for a one-character separator: the pieces between the
   separators, empty pieces included, so there is always one more piece than
   there are separators.
   */
  function Split(s: string, sep: char): (r: seq<string>)
    ensures |r| == Count(s, sep) + 1
    ensures forall i :: 0 <= i < |r| ==> sep !in r[i]
  {
    if s == [] then [[]]
    else
      var rest := Split(s[1..], sep);
      if s[0] == sep then [[]] + rest
      else [[s[0]] + rest[0]] + rest[1..]
  }

  /** `sep.join(parts)`: the parts with one `sep` between neighbours. */
  function Join(parts: seq<string>, sep: char): (r: string)
  {
    if |parts| == 0 then []
    else if |parts| == 1 then parts[0]
    else parts[0] + [sep] + Join(parts[1..], sep)
  }

  /** Joining the pieces of a split gives back the string. */
  lemma {:induction false} JoinSplit(s: string, sep: char)
    ensures Join(Split(s, sep), sep) == s
  {
    if s != [] {
      var rest := Split(s[1..], sep);
      JoinSplit(s[1..], sep);
      if s[0] != sep {
        if |rest| > 1 {
          var parts := [[s[0]] + rest[0]] + rest[1..];
          assert parts[1..] == rest[1..];
          assert Join(rest, sep) == rest[0] + [sep] + Join(rest[1..], sep);
        }
      } else {
        assert ([[]] + rest)[1..] == rest;
      }
    }
  }

  /** A separator-free prefix is glued to the first piece of what follows. */
  lemma {:induction false} SplitPrefix(p: string, t: string, sep: char)
    requires sep !in p
    ensures Split(p + t, sep) == [p + Split(t, sep)[0]] + Split(t, sep)[1..]
  {
    if p == [] {
      assert p + t == t;
      assert p + Split(t, sep)[0] == Split(t, sep)[0];
      assert Split(t, sep) == [Split(t, sep)[0]] + Split(t, sep)[1..];
    } else {
      var q := p[1..] + t;
      var st := Split(t, sep);
      assert Split(p + t, sep) == [[p[0]] + Split(q, sep)[0]] + Split(q, sep)[1..] by {
        assert (p + t)[0] == p[0] != sep;
        assert (p + t)[1..] == q;
      }
      assert Split(q, sep) == [p[1..] + st[0]] + st[1..] by {
        assert sep !in p[1..];
        SplitPrefix(p[1..], t, sep);
      }
      assert [p[0]] + (p[1..] + st[0]) == p + st[0];
    }
  }

  /** Splitting a join of separator-free parts gives back the parts. */
  lemma {:induction false} SplitJoin(parts: seq<string>, sep: char)
    requires parts != []
    requires forall i :: 0 <= i < |parts| ==> sep !in parts[i]
    ensures Split(Join(parts, sep), sep) == parts
  {
    if |parts| == 1 {
      SplitPrefix(parts[0], [], sep);
      assert parts[0] + [] == parts[0];
    } else {
      var rest := Join(parts[1..], sep);
      SplitJoin(parts[1..], sep);
      var t := [sep] + rest;
      assert Join(parts, sep) == parts[0] + t;
      SplitPrefix(parts[0], t, sep);
      assert t[0] == sep && t[1..] == rest;
      assert Split(t, sep) == [[]] + Split(rest, sep);
      assert parts[0] + [] == parts[0];
      assert parts == [parts[0]] + parts[1..];
    }
  }

  /** All characters of `s` that satisfy `keep`, in order. */
  function Filter(s: string, keep: char -> bool): (r: string)
    ensures |r| <= |s|
    ensures forall i :: 0 <= i < |r| ==> keep(r[i])
  {
    if s == [] then [] else (if keep(s[0]) then [s[0]] else []) + Filter(s[1..], keep)
  }

  lemma {:induction false} FilterAppend(s: string, t: string, keep: char -> bool)
    ensures Filter(s + t, keep) == Filter(s, keep) + Filter(t, keep)
  {
    if s == [] {
      assert s + t == t;
    } else {
      assert (s + t)[0] == s[0];
      assert (s + t)[1..] == s[1..] + t;
      FilterAppend(s[1..], t, keep);
    }
  }

  /** Keeping only what `keep` accepts commutes with replacing a character it rejects by text it rejects. */
  lemma {:induction false} FilterReplace(s: string, pat: char, rep: string, keep: char -> bool)
    requires !keep(pat) && Filter(rep, keep) == []
    ensures Filter(ReplaceChar(s, pat, rep), keep) == Filter(s, keep)
  {
    if s != [] {
      var head := if s[0] == pat then rep else [s[0]];
      ReplaceCharAppend([s[0]], s[1..], pat, rep);
      assert ReplaceChar(s, pat, rep) == head + ReplaceChar(s[1..], pat, rep);
      FilterAppend(head, ReplaceChar(s[1..], pat, rep), keep);
      FilterReplace(s[1..], pat, rep, keep);
    }
  }

  /** A filter that rejects all whitespace keeps nothing of a whitespace-only string. */
  lemma {:induction false} FilterAllSpace(s: string, keep: char -> bool)
    requires forall c :: keep(c) ==> !IsSpace(c)
    requires AllSpace(s)
    ensures Filter(s, keep) == []
  {
    if s != [] {
      assert IsSpace(s[0]);
      assert AllSpace(s[1..]) by {
        forall i | 0 <= i < |s[1..]| ensures IsSpace(s[1..][i]) {
          assert s[1..][i] == s[i + 1];
        }
      }
      FilterAllSpace(s[1..], keep);
    }
  }

  /** `strip` removes none of the characters a whitespace-rejecting filter keeps. */
  lemma FilterStrip(s: string, keep: char -> bool)
    requires forall c :: keep(c) ==> !IsSpace(c)
    ensures Filter(Strip(s), keep) == Filter(s, keep)
  {
    var a, b := StripParts(s);
    FilterAppend(a, Strip(s), keep);
    FilterAppend(a + Strip(s), b, keep);
    FilterAllSpace(a, keep);
    FilterAllSpace(b, keep);
  }

  /** `strip` only removes characters, so no count grows. */
  lemma CountStrip(s: string, c: char)
    ensures Count(Strip(s), c) <= Count(s, c)
  {
    var a, b := StripParts(s);
    CountAppend(a, Strip(s), c);
    CountAppend(a + Strip(s), b, c);
  }

  /** A join starts with its first part and ends with its last part. */
  lemma {:induction false} JoinEnds(parts: seq<string>, sep: char)
    requires parts != []
    ensures |parts[0]| <= |Join(parts, sep)| && Join(parts, sep)[..|parts[0]|] == parts[0]
    ensures |parts[|parts| - 1]| <= |Join(parts, sep)|
    ensures Join(parts, sep)[|Join(parts, sep)| - |parts[|parts| - 1]|..] == parts[|parts| - 1]
  {
    if |parts| > 1 {
      var tail := Join(parts[1..], sep);
      JoinEnds(parts[1..], sep);
      assert Join(parts, sep) == parts[0] + ([sep] + tail);
      assert parts[1..][|parts[1..]| - 1] == parts[|parts| - 1];
    }
  }

  /** Text prepended to the first part of a join is prepended to the join. */
  lemma JoinConsHead(x: string, y: string, ys: seq<string>, sep: char)
    ensures Join([x + y] + ys, sep) == x + Join([y] + ys, sep)
  {
    if ys != [] {
      assert ([x + y] + ys)[1..] == ys && ([y] + ys)[1..] == ys;
    }
  }
}
