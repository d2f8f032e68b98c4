/**
 * The handful of Python `str` methods the application relies on, modelled
 * on `seq<char>`: `strip`, `rstrip`, `upper`/`lower` (ASCII letters only),
 * `split`, `partition`, `replace`, `startswith`, `in`, `isdigit` (ASCII
 * digits), `int` of a string, `str` of an integer, `zfill` and `:02d`.
 */
module Text {
  import opened Wrappers

  // ---------------------------------------------------------------------------
  // Whitespace and stripping

  /**
   * The characters `str.isspace()` accepts, which `str.strip()` and `int()`
   * remove: tab to carriage return, the four separators `\x1c` to `\x1f`,
   * the space, and the Unicode spaces and line and paragraph separators.
   */
  predicate IsSpace(c: char) {
    c == ' ' || '\t' <= c <= '\r' || '\U{001C}' <= c <= '\U{001F}' || c == '\U{0085}' ||
    c == '\U{00A0}' || c == '\U{1680}' || '\U{2000}' <= c <= '\U{200A}' || c == '\U{2028}' ||
    c == '\U{2029}' || c == '\U{202F}' || c == '\U{205F}' || c == '\U{3000}'
  }

  /** `s.lstrip()` */
  function LStrip(s: string): (r: string)
    ensures |r| <= |s|
  {
    if |s| > 0 && IsSpace(s[0]) then LStrip(s[1..]) else s
  }

  /** `s.rstrip()` */
  function RStrip(s: string): (r: string)
    ensures |r| <= |s|
  {
    if |s| > 0 && IsSpace(s[|s| - 1]) then RStrip(s[..|s| - 1]) else s
  }

  /** `s.strip()` */
  function Strip(s: string): (r: string)
    ensures |r| <= |s|
  {
    RStrip(LStrip(s))
  }

  /** `s.rstrip(c)`: drop every trailing occurrence of `c`. */
  function RStripChar(s: string, c: char): (r: string)
    ensures |r| <= |s|
  {
    if |s| > 0 && s[|s| - 1] == c then RStripChar(s[..|s| - 1], c) else s
  }

  /** `s.lstrip(c)`: drop every leading occurrence of `c`. */
  function LStripChar(s: string, c: char): (r: string)
    ensures |r| <= |s|
  {
    if |s| > 0 && s[0] == c then LStripChar(s[1..], c) else s
  }

  /** `lstrip()` drops a run of leading whitespace and stops at the first other character. */
  lemma {:induction false} LStripShape(s: string)
    ensures LStrip(s) == s[|s| - |LStrip(s)|..]
    ensures forall k :: 0 <= k < |s| - |LStrip(s)| ==> IsSpace(s[k])
    ensures LStrip(s) != [] ==> !IsSpace(LStrip(s)[0])
    decreases |s|
  {
    if |s| > 0 && IsSpace(s[0]) {
      LStripShape(s[1..]);
    }
  }

  /** `rstrip()` drops a run of trailing whitespace and stops at the last other character. */
  lemma {:induction false} RStripShape(s: string)
    ensures RStrip(s) == s[..|RStrip(s)|]
    ensures forall k :: |RStrip(s)| <= k < |s| ==> IsSpace(s[k])
    ensures RStrip(s) != [] ==> !IsSpace(RStrip(s)[|RStrip(s)| - 1])
    decreases |s|
  {
    if |s| > 0 && IsSpace(s[|s| - 1]) {
      RStripShape(s[..|s| - 1]);
    }
  }

  /** `strip()` leaves text that neither starts nor ends with whitespace. */
  lemma {:induction false} StripShape(s: string)
    ensures Strip(s) != [] ==> !IsSpace(Strip(s)[0]) && !IsSpace(Strip(s)[|Strip(s)| - 1])
  {
    var l := LStrip(s);
    LStripShape(s);
    RStripShape(l);
    if Strip(s) != [] {
      assert Strip(s)[0] == l[0];
    }
  }

  /** `s.rstrip(c)` is a prefix of `s` followed only by `c`s, and does not end in `c`. */
  lemma {:induction false} RStripCharShape(s: string, c: char)
    ensures RStripChar(s, c) == s[..|RStripChar(s, c)|]
    ensures forall k :: |RStripChar(s, c)| <= k < |s| ==> s[k] == c
    ensures RStripChar(s, c) != [] ==> RStripChar(s, c)[|RStripChar(s, c)| - 1] != c
    decreases |s|
  {
    if |s| > 0 && s[|s| - 1] == c {
      RStripCharShape(s[..|s| - 1], c);
    }
  }

  /** `s.lstrip(c)` is a suffix of `s` after a run of `c`s, and does not start with `c`. */
  lemma {:induction false} LStripCharShape(s: string, c: char)
    ensures LStripChar(s, c) == s[|s| - |LStripChar(s, c)|..]
    ensures forall k :: 0 <= k < |s| - |LStripChar(s, c)| ==> s[k] == c
    ensures LStripChar(s, c) != [] ==> LStripChar(s, c)[0] != c
    decreases |s|
  {
    if |s| > 0 && s[0] == c {
      LStripCharShape(s[1..], c);
    }
  }

  lemma {:induction false} StripNoSpace(s: string)
    requires forall k :: 0 <= k < |s| ==> !IsSpace(s[k])
    ensures Strip(s) == s
  {
  }

  /** Text that neither starts nor ends with whitespace is its own `strip()`. */
  lemma {:induction false} StripTrimmed(s: string)
    requires s != [] ==> !IsSpace(s[0]) && !IsSpace(s[|s| - 1])
    ensures Strip(s) == s
  {
    assert LStrip(s) == s;
    assert RStrip(s) == s;
  }

  /** `strip()` adds no character. */
  lemma StripKeeps(s: string, c: char)
    ensures c !in s ==> c !in Strip(s)
  {
    LStripShape(s);
    RStripShape(LStrip(s));
  }

  lemma {:induction false} StripIdempotent(s: string)
    ensures Strip(Strip(s)) == Strip(s)
  {
    StripShape(s);
    StripTrimmed(Strip(s));
  }

  // ---------------------------------------------------------------------------
  // Case mapping (ASCII letters; Python maps every Unicode letter)

  function UpperChar(c: char): (u: char)
    ensures 'a' <= c <= 'z' ==> u as int == c as int - 32
    ensures !('a' <= c <= 'z') ==> u == c
  {
    if 'a' <= c <= 'z' then (c as int - 32) as char else c
  }

  function LowerChar(c: char): (l: char)
    ensures 'A' <= c <= 'Z' ==> l as int == c as int + 32
    ensures !('A' <= c <= 'Z') ==> l == c
  {
    if 'A' <= c <= 'Z' then (c as int + 32) as char else c
  }

  /** `s.upper()` */
  function Upper(s: string): (r: string)
    ensures |r| == |s|
    ensures forall i :: 0 <= i < |s| ==> r[i] == UpperChar(s[i])
  {
    seq(|s|, i requires 0 <= i < |s| => UpperChar(s[i]))
  }

  /** `s.lower()` */
  function Lower(s: string): (r: string)
    ensures |r| == |s|
    ensures forall i :: 0 <= i < |s| ==> r[i] == LowerChar(s[i])
  {
    seq(|s|, i requires 0 <= i < |s| => LowerChar(s[i]))
  }

  /** Whitespace has no case. */
  lemma UpperCharSpace(c: char)
    ensures IsSpace(UpperChar(c)) == IsSpace(c)
  {
  }

  lemma {:induction false} LStripUpper(s: string)
    ensures LStrip(Upper(s)) == Upper(LStrip(s))
    decreases |s|
  {
    if |s| > 0 {
      var u := Upper(s);
      UpperCharSpace(s[0]);
      if IsSpace(s[0]) {
        assert u[1..] == Upper(s[1..]);
        LStripUpper(s[1..]);
      }
    }
  }

  lemma {:induction false} RStripUpper(s: string)
    ensures RStrip(Upper(s)) == Upper(RStrip(s))
    decreases |s|
  {
    if |s| > 0 {
      assert Upper(s)[..|s| - 1] == Upper(s[..|s| - 1]);
      if IsSpace(s[|s| - 1]) {
        RStripUpper(s[..|s| - 1]);
      }
    }
  }

  /** Upper-casing and trimming commute: whitespace has no case. */
  lemma {:induction false} StripUpper(s: string)
    ensures Strip(Upper(s)) == Upper(Strip(s))
  {
    LStripUpper(s);
    RStripUpper(LStrip(s));
  }

  lemma UpperIdempotent(s: string)
    ensures Upper(Upper(s)) == Upper(s)
  {
  }

  /** Strings equal without case (lower) are also equal when upper-cased. */
  lemma {:induction false} LowerEqualUpperEqual(a: string, b: string)
    requires Lower(a) == Lower(b)
    ensures Upper(a) == Upper(b)
  {
    assert |a| == |b|;
    forall i | 0 <= i < |a|
      ensures UpperChar(a[i]) == UpperChar(b[i])
    {
      assert LowerChar(a[i]) == LowerChar(b[i]);
    }
  }

  // ---------------------------------------------------------------------------
  // Searching

  /** Index of the first `c` in `s`, or `|s|` when there is none. */
  function IndexOf(s: string, c: char): (i: nat)
    ensures i <= |s|
    ensures i < |s| ==> s[i] == c
    ensures forall k :: 0 <= k < i ==> s[k] != c
  {
    if |s| == 0 then 0 else if s[0] == c then 0 else 1 + IndexOf(s[1..], c)
  }

  /** `sub` occurs in `s` starting at index `i`. */
  predicate OccursAt(s: string, sub: string, i: nat) {
    i + |sub| <= |s| && s[i..i + |sub|] == sub
  }

  /** Python's `sub in s`. */
  predicate Contains(s: string, sub: string)
    decreases |s|
  {
    sub <= s || (|s| > 0 && Contains(s[1..], sub))
  }

  lemma {:induction false} ContainsAt(s: string, sub: string, i: nat)
    requires i + |sub| <= |s| && s[i..i + |sub|] == sub
    ensures Contains(s, sub)
    decreases i
  {
    if i > 0 {
      assert s[1..][i - 1..i - 1 + |sub|] == sub;
      ContainsAt(s[1..], sub, i - 1);
    }
  }

  lemma {:induction false} ContainsWitness(s: string, sub: string)
    requires Contains(s, sub)
    ensures exists i: nat :: OccursAt(s, sub, i)
    decreases |s|
  {
    if sub <= s {
      assert OccursAt(s, sub, 0);
    } else {
      ContainsWitness(s[1..], sub);
      var i: nat :| OccursAt(s[1..], sub, i);
      assert s[i + 1..i + 1 + |sub|] == s[1..][i..i + |sub|];
      assert OccursAt(s, sub, i + 1);
    }
  }

  // ---------------------------------------------------------------------------
  // Splitting and joining

  /** `s.partition(c)`: text before the first `c`, the separator, the rest. */
  function Partition(s: string, c: char): (r: (string, string, string))
    ensures r.0 + r.1 + r.2 == s
    ensures c !in r.0
    ensures r.1 == [c] || (r.1 == "" && r.2 == "" && r.0 == s)
  {
    var i := IndexOf(s, c);
    if i == |s| then (s, "", "") else (s[..i], [c], s[i + 1..])
  }

  /** `s.split(c)` for a one-character separator. */
  function SplitChar(s: string, c: char): (parts: seq<string>)
    ensures |parts| > 0
    ensures forall i :: 0 <= i < |parts| ==> c !in parts[i]
  {
    if |s| == 0 then [""]
    else
      var rest := SplitChar(s[1..], c);
      if s[0] == c then [""] + rest else [[s[0]] + rest[0]] + rest[1..]
  }

  /** `sep.join(parts)` */
  function Join(parts: seq<string>, sep: string): string {
    if |parts| == 0 then ""
    else if |parts| == 1 then parts[0]
    else parts[0] + sep + Join(parts[1..], sep)
  }

  lemma {:induction false} SplitCharJoin(s: string, c: char)
    ensures Join(SplitChar(s, c), [c]) == s
    decreases |s|
  {
    if |s| > 0 {
      var rest := SplitChar(s[1..], c);
      SplitCharJoin(s[1..], c);
      if s[0] == c {
        assert s == [c] + s[1..];
      } else if |rest| == 1 {
        assert s == [s[0]] + s[1..];
      } else {
        assert s == [s[0]] + s[1..];
        assert Join(rest, [c]) == rest[0] + [c] + Join(rest[1..], [c]);
      }
    }
  }

  /** A text without the separator splits into itself. */
  lemma {:induction false} SplitCharNone(s: string, c: char)
    requires c !in s
    ensures SplitChar(s, c) == [s]
    decreases |s|
  {
    if |s| > 0 {
      SplitCharNone(s[1..], c);
      assert s == [s[0]] + s[1..];
    }
  }

  /** Two texts without the separator, joined by it, split back into the two. */
  lemma {:induction false} SplitCharPair(a: string, b: string, c: char)
    requires c !in a && c !in b
    ensures SplitChar(a + [c] + b, c) == [a, b]
    decreases |a|
  {
    var s := a + [c] + b;
    if |a| == 0 {
      assert s[1..] == b;
      SplitCharNone(b, c);
    } else {
      assert s[1..] == a[1..] + [c] + b;
      SplitCharPair(a[1..], b, c);
      assert [a[0]] + a[1..] == a;
    }
  }

  /** Fields without the separator, joined by it, split back into the same fields. */
  lemma {:induction false} SplitJoin(parts: seq<string>, c: char)
    requires |parts| > 0 && forall k :: 0 <= k < |parts| ==> c !in parts[k]
    ensures SplitChar(Join(parts, [c]), c) == parts
    decreases |parts|
  {
    if |parts| == 1 {
      SplitCharNone(parts[0], c);
    } else {
      SplitJoin(parts[1..], c);
      SplitCharCons(parts[0], Join(parts[1..], [c]), c);
      assert parts == [parts[0]] + parts[1..];
    }
  }

  /** A first field without the separator, then the separator: the field comes off the front. */
  lemma {:induction false} SplitCharCons(a: string, rest: string, c: char)
    requires c !in a
    ensures SplitChar(a + [c] + rest, c) == [a] + SplitChar(rest, c)
    decreases |a|
  {
    var s := a + [c] + rest;
    if |a| == 0 {
      assert s[1..] == rest;
    } else {
      assert s[1..] == a[1..] + [c] + rest;
      SplitCharCons(a[1..], rest, c);
      assert [a[0]] + a[1..] == a;
    }
  }

  /** `s.split(sep)` for a separator of any positive length. */
  function SplitStr(s: string, sep: string): (parts: seq<string>)
    requires |sep| > 0
    ensures |parts| > 0
    decreases |s|
  {
    if |s| == 0 then [""]
    else if sep <= s then [""] + SplitStr(s[|sep|..], sep)
    else
      var rest := SplitStr(s[1..], sep);
      [[s[0]] + rest[0]] + rest[1..]
  }

  /** `s.replace(p, r)`: every non-overlapping `p`, left to right. */
  function Replace(s: string, p: string, r: string): (t: string)
    requires |p| > 0
    ensures !Contains(s, p) ==> t == s
    decreases |s|
  {
    if |s| == 0 then ""
    else if p <= s then r + Replace(s[|p|..], p, r)
    else [s[0]] + Replace(s[1..], p, r)
  }

  /** `s.endswith(c)` */
  predicate EndsWith(s: string, c: char) {
    |s| > 0 && s[|s| - 1] == c
  }

  /** Prefixes compare character by character. */
  lemma PrefixCons(c: char, w: string, d: char, y: string)
    ensures ([c] + w <= [d] + y) == (c == d && w <= y)
  {
    var a, b := [c] + w, [d] + y;
    if a <= b {
      assert c == a[0] == b[0] == d;
      forall i | 0 <= i < |w|
        ensures w[i] == y[i]
      {
        assert w[i] == a[i + 1] && y[i] == b[i + 1];
      }
      assert w == y[..|w|];
    }
    if c == d && w <= y {
      forall i | 0 <= i < |a|
        ensures a[i] == b[i]
      {
        assert 0 < i ==> a[i] == w[i - 1] && b[i] == y[i - 1];
      }
      assert a == b[..|a|];
    }
  }

  /** A text differing at some index from `p` does not start with `p`. */
  lemma NotPrefixAt(p: string, q: string, i: nat)
    requires i < |p| && i < |q| && p[i] != q[i]
    ensures !(p <= q)
  {
  }

  /** The last character of a concatenation. */
  lemma EndsWithConcat(a: string, b: string, c: char)
    ensures EndsWith(a + b, c) == if |b| > 0 then EndsWith(b, c) else EndsWith(a, c)
  {
    assert |b| == 0 ==> a + b == a;
  }

  /** A text cannot hold a longer one. */
  lemma {:induction false} ContainsShorter(s: string, sub: string)
    requires |sub| > |s|
    ensures !Contains(s, sub)
    decreases |s|
  {
    if |s| > 0 {
      ContainsShorter(s[1..], sub);
    }
  }

  /** Characters that cannot start `sub` add no occurrence of it in front of a text. */
  lemma {:induction false} ContainsSkip(u: string, y: string, sub: string)
    requires |sub| > 0 && sub[0] !in u
    ensures Contains(u + y, sub) == Contains(y, sub)
    decreases |u|
  {
    if |u| > 0 {
      assert (u + y)[1..] == u[1..] + y;
      ContainsSkip(u[1..], y, sub);
    } else {
      assert u + y == y;
    }
  }

  /** A prefix longer than `a` of `a + m + b` continues into `m`. */
  lemma PrefixReaches(a: string, m: string, b: string, sub: string)
    requires |m| > 0
    ensures sub <= a + m + b && |sub| > |a| ==> sub[|a|] == m[0] && m[0] in sub
  {
  }

  /**
   * Joining two texts without `sub` by a non-empty middle none of whose
   * characters occurs in `sub` creates no occurrence of `sub`.
   */
  lemma {:induction false} ContainsAcross(a: string, m: string, b: string, sub: string)
    requires |sub| > 0 && |m| > 0
    requires forall i :: 0 <= i < |m| ==> m[i] !in sub
    requires !Contains(a, sub) && !Contains(b, sub)
    ensures !Contains(a + m + b, sub)
    decreases |a|
  {
    if |a| == 0 {
      assert a + m + b == m + b;
      ContainsSkip(m, b, sub);
    } else {
      var s := a + m + b;
      assert |sub| <= |a| ==> (sub <= s ==> sub <= a);
      PrefixReaches(a, m, b, sub);
      assert s[1..] == a[1..] + m + b;
      ContainsAcross(a[1..], m, b, sub);
    }
  }

  /** `s.replace(p, r)` copies characters that cannot start `p`. */
  lemma {:induction false} ReplaceSkips(u: string, y: string, p: string, r: string)
    requires |p| > 0 && p[0] !in u
    ensures Replace(u + y, p, r) == u + Replace(y, p, r)
    decreases |u|
  {
    if |u| > 0 {
      assert (u + y)[1..] == u[1..] + y;
      ReplaceSkips(u[1..], y, p, r);
    } else {
      assert u + y == y;
    }
  }

  /**
   * `s.replace(p, r)` copies a leading `u` that does not start a match and
   * holds the first character of `p` only at its front.
   */
  lemma ReplaceSkipsHead(u: string, y: string, p: string, r: string)
    requires |u| > 0 && |p| > 0 && !(p <= u + y) && p[0] !in u[1..]
    ensures Replace(u + y, p, r) == u + Replace(y, p, r)
  {
    var t := u[1..];
    assert u + y == [u[0]] + (t + y) by {
      assert u == [u[0]] + t;
    }
    calc {
      Replace(u + y, p, r);
    == { ReplaceNoMatch(u[0], t + y, p, r); }
      [u[0]] + Replace(t + y, p, r);
    == { ReplaceSkips(t, y, p, r); }
      [u[0]] + (t + Replace(y, p, r));
    == { assert u == [u[0]] + t; }
      u + Replace(y, p, r);
    }
  }

  /** `s.replace(p, r)` copies a first character that does not start a match. */
  lemma ReplaceNoMatch(c: char, z: string, p: string, r: string)
    requires |p| > 0 && !(p <= [c] + z)
    ensures Replace([c] + z, p, r) == [c] + Replace(z, p, r)
  {
    assert ([c] + z)[1..] == z;
  }

  /** `s.replace(p, r)` rewrites a match at the front. */
  lemma ReplaceMatch(y: string, p: string, r: string)
    requires |p| > 0
    ensures Replace(p + y, p, r) == r + Replace(y, p, r)
  {
    assert (p + y)[|p|..] == y;
  }

  /**
   * What `s.replace(p, r)` starts with, if it does not contain the first
   * character of `r`, is what `s` starts with.
   */
  lemma {:induction false} PrefixThrough(w: string, u: string, p: string, r: string)
    requires |p| > 0 && |r| > 0 && r[0] !in w
    ensures w <= Replace(u, p, r) ==> w <= u
    decreases |u|
  {
    if |w| > 0 && |u| > 0 && !(p <= u) && w <= Replace(u, p, r) {
      assert Replace(u, p, r) == [u[0]] + Replace(u[1..], p, r);
      assert w[1..] <= Replace(u[1..], p, r);
      assert r[0] !in w[1..] by {
        assert forall i :: 0 <= i < |w[1..]| ==> w[1..][i] == w[i + 1];
      }
      PrefixThrough(w[1..], u[1..], p, r);
      assert w == [w[0]] + w[1..] && u == [u[0]] + u[1..];
    } else if |w| > 0 && |u| > 0 && p <= u {
      assert Replace(u, p, r) == r + Replace(u[|p|..], p, r);
      assert Replace(u, p, r)[0] == r[0] && w[0] in w;
    }
  }

  /** Text without the separator splits into itself. */
  lemma {:induction false} SplitStrNone(s: string, sep: string)
    requires |sep| > 0 && !Contains(s, sep)
    ensures SplitStr(s, sep) == [s]
    decreases |s|
  {
    if |s| > 0 {
      SplitStrNone(s[1..], sep);
      assert [s[0]] + s[1..] == s;
    }
  }

  /**
   * `s.split(sep, 1)` when it gives two parts: the text before the first
   * `sep` and the text after it; `None` when `sep` does not occur.
   */
  function SplitOnce(s: string, sep: string): (r: Option<(string, string)>)
    requires |sep| > 0
    ensures r.Some? ==> s == r.value.0 + sep + r.value.1
    decreases |s|
  {
    if |s| == 0 then None
    else if sep <= s then Some(("", s[|sep|..]))
    else match SplitOnce(s[1..], sep)
      case None => None
      case Some((a, b)) =>
        assert s == [s[0]] + (a + sep + b);
        Some(([s[0]] + a, b))
  }

  /** A separator with a character the text lacks does not occur in it. */
  lemma NotContainsChar(s: string, sub: string, x: char)
    requires x in sub && x !in s
    ensures !Contains(s, sub)
  {
    if Contains(s, sub) {
      ContainsWitness(s, sub);
    }
  }

  /** Text without some character of the separator does not split. */
  lemma {:induction false} SplitOnceMissing(s: string, sep: string, x: char)
    requires |sep| > 0 && x in sep && x !in s
    ensures SplitOnce(s, sep) == None
    decreases |s|
  {
    if |s| > 0 {
      SplitOnceMissing(s[1..], sep, x);
    }
  }

  /**
   * For a three-character separator such as " | " whose middle character
   * is not its first, a first field without that middle character comes
   * off the front intact.
   */
  lemma {:induction false} SplitOnceAround(a: string, rest: string, sep: string)
    requires |sep| == 3 && sep[0] != sep[1] && sep[1] !in a
    ensures SplitOnce(a + sep + rest, sep) == Some((a, rest))
    decreases |a|
  {
    var s := a + sep + rest;
    if |a| == 0 {
      assert s == sep + rest;
    } else {
      FirstCharNotSeparator(a, rest, sep);
      assert s[1..] == a[1..] + sep + rest;
      SplitOnceAround(a[1..], rest, sep);
      assert [a[0]] + a[1..] == a;
    }
  }

  /** `split(sep)` with the same separator and first field as `SplitOnceAround`. */
  lemma {:induction false} SplitStrAround(a: string, rest: string, sep: string)
    requires |sep| == 3 && sep[0] != sep[1] && sep[1] !in a
    ensures SplitStr(a + sep + rest, sep) == [a] + SplitStr(rest, sep)
    decreases |a|
  {
    var s := a + sep + rest;
    if |a| == 0 {
      assert s == sep + rest;
    } else {
      FirstCharNotSeparator(a, rest, sep);
      assert s[1..] == a[1..] + sep + rest;
      SplitStrAround(a[1..], rest, sep);
      assert [a[0]] + a[1..] == a;
    }
  }

  /** The separator cannot start at the first character of a non-empty first field. */
  lemma FirstCharNotSeparator(a: string, rest: string, sep: string)
    requires |sep| == 3 && sep[0] != sep[1] && sep[1] !in a && |a| > 0
    ensures !(sep <= a + sep + rest)
  {
    var s := a + sep + rest;
    if |a| >= 2 {
      assert s[1] == a[1];
    } else {
      assert s[1] == sep[0];
    }
  }

  /**
   * For a doubled separator `cc`, a first field that holds no `cc` and
   * does not end in `c` comes off the front intact.
   */
  lemma {:induction false} SplitStrCons(a: string, rest: string, c: char)
    requires !Contains(a, [c, c]) && !EndsWith(a, c)
    ensures SplitStr(a + [c, c] + rest, [c, c]) == [a] + SplitStr(rest, [c, c])
    decreases |a|
  {
    var s := a + [c, c] + rest;
    if |a| == 0 {
      assert s == [c, c] + rest;
      assert s[2..] == rest;
    } else {
      assert s[0] == a[0];
      assert |a| >= 2 ==> s[1] == a[1] && ([c, c] <= s ==> [c, c] <= a);
      assert |a| == 1 ==> s[1] == c;
      assert s[1..] == a[1..] + [c, c] + rest;
      SplitStrCons(a[1..], rest, c);
      assert [a[0]] + a[1..] == a;
    }
  }

  /**
   * Fields joined by a doubled separator `cc` split back into the same
   * fields when none holds `cc` and none but the last ends in `c`.
   */
  lemma {:induction false} SplitStrJoin(parts: seq<string>, c: char)
    requires |parts| > 0
    requires forall k :: 0 <= k < |parts| ==> !Contains(parts[k], [c, c])
    requires forall k :: 0 <= k < |parts| - 1 ==> !EndsWith(parts[k], c)
    ensures SplitStr(Join(parts, [c, c]), [c, c]) == parts
    decreases |parts|
  {
    if |parts| == 1 {
      SplitStrNone(parts[0], [c, c]);
    } else {
      SplitStrJoin(parts[1..], c);
      assert Join(parts, [c, c]) == parts[0] + [c, c] + Join(parts[1..], [c, c]);
      SplitStrCons(parts[0], Join(parts[1..], [c, c]), c);
      assert [parts[0]] + parts[1..] == parts;
    }
  }

  /** A character in neither the fields nor the separator is not in their join. */
  lemma {:induction false} JoinNoChar(parts: seq<string>, sep: string, x: char)
    requires x !in sep && forall k :: 0 <= k < |parts| ==> x !in parts[k]
    ensures x !in Join(parts, sep)
    decreases |parts|
  {
    if |parts| > 1 {
      JoinNoChar(parts[1..], sep, x);
    }
  }

  /** Joining by a separator whose characters are not in `sub` creates no `sub`. */
  lemma {:induction false} JoinNoContains(parts: seq<string>, sep: string, sub: string)
    requires |sub| > 0 && |sep| > 0
    requires forall i :: 0 <= i < |sep| ==> sep[i] !in sub
    requires forall k :: 0 <= k < |parts| ==> !Contains(parts[k], sub)
    ensures !Contains(Join(parts, sep), sub)
    decreases |parts|
  {
    if |parts| == 0 {
      ContainsShorter("", sub);
    } else if |parts| > 1 {
      JoinNoContains(parts[1..], sep, sub);
      ContainsAcross(parts[0], sep, Join(parts[1..], sep), sub);
    }
  }

  /** Only no field, or one empty field, joins to the empty text. */
  lemma JoinEmpty(parts: seq<string>, sep: string)
    requires |sep| > 0 && Join(parts, sep) == ""
    ensures parts == [] || parts == [""]
  {
    assert |parts| > 1 ==> |Join(parts, sep)| >= |sep|;
  }

  /** `s.rstrip("\n")` takes off exactly the one newline a newline-free text was given. */
  lemma RStripOneNewline(x: string)
    requires '\n' !in x
    ensures RStripChar(x + "\n", '\n') == x
  {
    assert (x + "\n")[..|x|] == x;
  }

  // ---------------------------------------------------------------------------
  // Decimal digits

  predicate IsDigit(c: char) { '0' <= c <= '9' }

  /** `s.isdigit()` (ASCII digits): non-empty and digits only. */
  predicate IsDigits(s: string) {
    |s| > 0 && forall i :: 0 <= i < |s| ==> IsDigit(s[i])
  }

  /** `int(s)` for a string of digits. */
  function DecValue(s: string): (n: nat)
    requires forall i :: 0 <= i < |s| ==> IsDigit(s[i])
  {
    if |s| == 0 then 0
    else
      assert IsDigit(s[|s| - 1]);
      10 * DecValue(s[..|s| - 1]) + (s[|s| - 1] as int - '0' as int)
  }

  function DigitChar(d: nat): (c: char)
    requires d < 10
    ensures IsDigit(c) && c as int - '0' as int == d
  {
    ('0' as int + d) as char
  }

  /** `str(n)` */
  function NatToDec(n: nat): (s: string)
    ensures |s| > 0
  {
    if n < 10 then [DigitChar(n)] else NatToDec(n / 10) + [DigitChar(n % 10)]
  }

  /** `str(n)` is the decimal numeral of `n`, without leading zeros. */
  lemma {:induction false} NatToDecValue(n: nat)
    ensures IsDigits(NatToDec(n)) && DecValue(NatToDec(n)) == n
    ensures n > 0 ==> NatToDec(n)[0] != '0'
    ensures n < 10 ==> |NatToDec(n)| == 1
    ensures 10 <= n < 100 ==> |NatToDec(n)| == 2
    decreases n
  {
    if n >= 10 {
      NatToDecValue(n / 10);
      var s := NatToDec(n);
      assert s[..|s| - 1] == NatToDec(n / 10);
      assert s[0] == NatToDec(n / 10)[0];
    }
  }

  /** `s.zfill(w)` for an unsigned string: pad with zeros on the left. */
  function ZFill(s: string, w: nat): string {
    if |s| >= w then s else seq(w - |s|, _ => '0') + s
  }

  lemma {:induction false} DecValueLeadingZeros(z: string, s: string)
    requires forall i :: 0 <= i < |z| ==> z[i] == '0'
    requires forall i :: 0 <= i < |s| ==> IsDigit(s[i])
    ensures forall i :: 0 <= i < |z + s| ==> IsDigit((z + s)[i])
    ensures DecValue(z + s) == DecValue(s)
    decreases |s|
  {
    if |s| == 0 {
      assert z + s == z;
      ZerosValue(z);
    } else {
      assert (z + s)[..|z + s| - 1] == z + s[..|s| - 1];
      DecValueLeadingZeros(z, s[..|s| - 1]);
    }
  }

  lemma {:induction false} ZerosValue(z: string)
    requires forall i :: 0 <= i < |z| ==> z[i] == '0'
    ensures DecValue(z) == 0
    decreases |z|
  {
    if |z| > 0 {
      ZerosValue(z[..|z| - 1]);
    }
  }

  /**
   * Zero-padding keeps the text it pads as a suffix, reaches the width, and
   * keeps the number a digit string denotes.
   */
  lemma {:induction false} ZFillValue(s: string, w: nat)
    requires IsDigits(s)
    ensures |ZFill(s, w)| == if |s| >= w then |s| else w
    ensures ZFill(s, w)[|ZFill(s, w)| - |s|..] == s
    ensures forall i :: 0 <= i < |ZFill(s, w)| - |s| ==> ZFill(s, w)[i] == '0'
    ensures IsDigits(ZFill(s, w))
    ensures DecValue(ZFill(s, w)) == DecValue(s)
  {
    if |s| < w {
      var z := seq(w - |s|, _ => '0');
      assert ZFill(s, w) == z + s;
      assert (z + s)[|z|..] == s;
      DecValueLeadingZeros(z, s);
    }
  }

  /** Python's `f"{n:02d}"` for a natural number. */
  function Pad2(n: nat): string {
    ZFill(NatToDec(n), 2)
  }

  /**
   * `f"{n:02d}"` denotes `n`; below 100 it has exactly two digits: a zero
   * and `str(n)` below 10, `str(n)` itself from 10 on.
   */
  lemma Pad2Value(n: nat)
    ensures IsDigits(Pad2(n)) && DecValue(Pad2(n)) == n
    ensures n < 100 ==> |Pad2(n)| == 2
    ensures n < 10 ==> Pad2(n) == ['0'] + NatToDec(n)
    ensures n >= 10 ==> Pad2(n) == NatToDec(n)
  {
    NatToDecValue(n);
    ZFillValue(NatToDec(n), 2);
    if n < 10 {
      assert seq(1, _ => '0') == ['0'];
    }
  }

  /** Below 100, `f"{n:02d}"` is the tens digit followed by the units digit. */
  lemma Pad2Digits(n: nat)
    requires n < 100
    ensures Pad2(n) == [DigitChar(n / 10), DigitChar(n % 10)]
  {
    Pad2Value(n);
    if n < 10 {
      assert DigitChar(0) == '0';
    }
  }

  // ---------------------------------------------------------------------------
  // int() and f"{x:02d}" on any integer

  /**
   * The digits of a decimal `int()` literal: ASCII digits, where a single
   * underscore may stand between two digits.
   */
  predicate IsNumeral(s: string) {
    |s| > 0 && IsDigit(s[0]) && IsDigit(s[|s| - 1]) &&
    (forall i :: 0 <= i < |s| ==> IsDigit(s[i]) || s[i] == '_') &&
    (forall i :: 0 <= i < |s| - 1 && s[i] == '_' ==> s[i + 1] != '_')
  }

  function DropUnderscores(s: string): (d: string)
    ensures forall i :: 0 <= i < |d| ==> d[i] in s && d[i] != '_'
  {
    if |s| == 0 then [] else (if s[0] == '_' then [] else [s[0]]) + DropUnderscores(s[1..])
  }

  /** The number a numeral denotes, its underscores ignored. */
  function NumeralValue(s: string): nat
    requires IsNumeral(s)
  {
    DropUnderscoresDigits(s);
    DecValue(DropUnderscores(s))
  }

  lemma DropUnderscoresDigits(s: string)
    requires forall i :: 0 <= i < |s| ==> IsDigit(s[i]) || s[i] == '_'
    ensures forall i :: 0 <= i < |DropUnderscores(s)| ==> IsDigit(DropUnderscores(s)[i])
  {
    var d := DropUnderscores(s);
    forall i | 0 <= i < |d|
      ensures IsDigit(d[i])
    {
      var j :| 0 <= j < |s| && s[j] == d[i];
    }
  }

  /**
   * `int(s)`: surrounding whitespace is ignored, one `+` or `-` may lead,
   * and the rest must be a numeral; `None` where `int()` raises.
   */
  function PyInt(s: string): Option<int> {
    var t := Strip(s);
    if |t| > 0 && (t[0] == '+' || t[0] == '-') then
      if IsNumeral(t[1..]) then Some(if t[0] == '-' then -(NumeralValue(t[1..]) as int) else NumeralValue(t[1..]))
      else None
    else if IsNumeral(t) then Some(NumeralValue(t))
    else None
  }

  lemma {:induction false} DropNoUnderscores(s: string)
    requires forall i :: 0 <= i < |s| ==> IsDigit(s[i])
    ensures DropUnderscores(s) == s
    decreases |s|
  {
    if |s| > 0 {
      DropNoUnderscores(s[1..]);
    }
  }

  /** A digit string is read by `int()` as its value. */
  lemma PyIntOfDigits(s: string)
    requires IsDigits(s)
    ensures PyInt(s) == Some(DecValue(s) as int)
  {
    StripNoSpace(s);
    DropNoUnderscores(s);
  }

  /** `int()` ignores the whitespace around its argument. */
  lemma PyIntStrips(s: string)
    ensures PyInt(s) == PyInt(Strip(s))
  {
    StripIdempotent(s);
  }

  /** A leading sign is read as the number's sign. */
  lemma PyIntSigned(d: string)
    requires IsNumeral(d)
    ensures PyInt("-" + d) == Some(-(NumeralValue(d) as int))
    ensures PyInt("+" + d) == Some(NumeralValue(d) as int)
  {
    SignedNoSpace('-', d);
    SignedNoSpace('+', d);
  }

  /** A digit string is a numeral denoting its own value. */
  lemma DigitsNumeral(d: string)
    requires IsDigits(d)
    ensures IsNumeral(d) && NumeralValue(d) == DecValue(d)
  {
    DropNoUnderscores(d);
  }

  /** A sign followed by a numeral has no whitespace to strip. */
  lemma SignedNoSpace(c: char, d: string)
    requires (c == '-' || c == '+') && IsNumeral(d)
    ensures Strip([c] + d) == [c] + d && ([c] + d)[1..] == d
  {
    assert ([c] + d)[1..] == d;
    StripNoSpace([c] + d);
  }

  lemma PyIntUnderscored()
    ensures PyInt("1_0") == Some(10)
  {
    StripNoSpace("1_0");
    UnderscoredNumeral();
  }

  lemma UnderscoredNumeral()
    ensures IsNumeral("1_0") && NumeralValue("1_0") == 10
  {
    var s := "1_0";
    assert s[0] == '1' && s[1] == '_' && s[2] == '0';
    assert IsNumeral(s);
    assert DropUnderscores(s) == "10";
    assert DecValue("10") == 10 by {
      assert "10"[..1] == "1";
    }
  }

  /** Digits between two spaces strip to the digits. */
  lemma StripSpaced(d: string)
    requires IsDigits(d)
    ensures Strip(" " + d + " ") == d
  {
    var s := " " + d + " ";
    assert s[1..] == d + " ";
    assert LStrip(s) == LStrip(d + " ");
    assert LStrip(d + " ") == d + " " by {
      assert (d + " ")[0] == d[0];
    }
    assert (d + " ")[..|d|] == d;
    assert RStrip(d + " ") == RStrip(d);
    StripNoSpace(d);
    assert RStrip(d) == d by {
      assert d[|d| - 1] == d[|d| - 1];
    }
  }

  /** Text without a digit, or with a doubled or trailing underscore, does not read as a number. */
  lemma PyIntRejects()
    ensures PyInt("") == None && PyInt("-") == None && PyInt("1__0") == None && PyInt("1_") == None
  {
    assert Strip("1__0") == "1__0" by { StripNoSpace("1__0"); }
    assert Strip("1_") == "1_" by { StripNoSpace("1_"); }
    assert Strip("-") == "-" by { StripNoSpace("-"); }
    assert !IsNumeral("1__0") by {
      var s := "1__0";
      assert s[1] == '_' && s[2] == '_';
    }
  }

  /** `f"{x:02d}"` for any integer: the minus sign counts toward the width of two. */
  function Fmt02(x: int): string {
    if x >= 0 then Pad2(x) else "-" + NatToDec(-x)
  }

  /** `str(x)` for any integer. */
  function IntToDec(x: int): string {
    if x >= 0 then NatToDec(x) else "-" + NatToDec(-x)
  }

  // ---------------------------------------------------------------------------
  // Lexicographic order (Python's `<` on str for the characters used here)

  predicate LexLess(a: string, b: string)
    decreases |a|
  {
    if |a| == 0 then |b| > 0
    else if |b| == 0 then false
    else if a[0] != b[0] then a[0] < b[0]
    else LexLess(a[1..], b[1..])
  }

  lemma {:induction false} LexLessIrreflexive(a: string)
    ensures !LexLess(a, a)
    decreases |a|
  {
    if |a| > 0 {
      LexLessIrreflexive(a[1..]);
    }
  }

  lemma {:induction false} LexLessTotal(a: string, b: string)
    ensures a == b || LexLess(a, b) || LexLess(b, a)
    decreases |a|
  {
    if |a| > 0 && |b| > 0 && a[0] == b[0] {
      LexLessTotal(a[1..], b[1..]);
      if a[1..] == b[1..] {
        assert a == [a[0]] + a[1..] && b == [b[0]] + b[1..];
      }
    }
  }

  lemma {:induction false} LexLessAsymmetric(a: string, b: string)
    requires LexLess(a, b)
    ensures !LexLess(b, a)
    decreases |a|
  {
    if |a| > 0 && a[0] == b[0] {
      LexLessAsymmetric(a[1..], b[1..]);
    }
  }

  lemma {:induction false} LexLessTransitive(a: string, b: string, c: string)
    requires LexLess(a, b) && LexLess(b, c)
    ensures LexLess(a, c)
    decreases |a|
  {
    if |a| > 0 && a[0] == b[0] && b[0] == c[0] {
      LexLessTransitive(a[1..], b[1..], c[1..]);
    }
  }

  /** Strings that start alike compare as their remainders; otherwise by their first characters. */
  lemma LexLessCons(x: char, a: string, y: char, b: string)
    ensures LexLess([x] + a, [y] + b) == if x != y then x < y else LexLess(a, b)
  {
    assert ([x] + a)[1..] == a && ([y] + b)[1..] == b;
  }

  /** With first parts of equal length, the first parts decide unless they are equal. */
  lemma {:induction false} LexLessAppend(a: string, c: string, b: string, d: string)
    requires |a| == |b|
    ensures LexLess(a + c, b + d) == (LexLess(a, b) || (a == b && LexLess(c, d)))
    decreases |a|
  {
    if |a| == 0 {
      assert a + c == c && b + d == d;
    } else {
      assert (a + c)[0] == a[0] && (b + d)[0] == b[0];
      assert (a + c)[1..] == a[1..] + c && (b + d)[1..] == b[1..] + d;
      LexLessAppend(a[1..], c, b[1..], d);
      if a[0] == b[0] && a[1..] == b[1..] {
        assert a == [a[0]] + a[1..] && b == [b[0]] + b[1..];
      }
    }
  }
}
