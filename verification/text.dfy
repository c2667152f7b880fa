/**
 * The two string primitives the row normaliser is built on: Python's
 * `str.strip()` with no argument and `str.split(sep)` with a one-character
 * separator.
 */
module Text {

  /** Python's `str.isspace()` for one character: the ASCII controls 9-13 and
      28-31, the space, and the Unicode separators Python treats as white space. */
  predicate IsSpace(c: char) {
    || ('\t' <= c <= '\r')
    || ('\U{001C}' <= c <= ' ')
    || c == '\U{0085}' || c == '\U{00A0}' || c == '\U{1680}'
    || ('\U{2000}' <= c <= '\U{200A}')
    || c == '\U{2028}' || c == '\U{2029}' || c == '\U{202F}'
    || c == '\U{205F}' || c == '\U{3000}'
  }

  predicate AllSpace(s: string) {
    forall k :: 0 <= k < |s| ==> IsSpace(s[k])
  }

  /** Neither the first nor the last character is white space. */
  predicate Edgeless(s: string) {
    s == [] || (!IsSpace(s[0]) && !IsSpace(s[|s| - 1]))
  }

  /** Python's `s.strip()`: white space is dropped from the front, then from
      the back, until neither end is white space. */
  function Strip(s: string): (r: string)
    ensures Edgeless(r)
    ensures |r| <= |s|
    decreases |s|
  {
    if s != [] && IsSpace(s[0]) then Strip(s[1..])
    else if s != [] && IsSpace(s[|s| - 1]) then Strip(s[..|s| - 1])
    else s
  }

  /** `r` is `s[i..i + |r|]` and everything around it is white space. */
  predicate TrimmedAt(s: string, r: string, i: nat) {
    i + |r| <= |s| && r == s[i..i + |r|] && AllSpace(s[..i]) && AllSpace(s[i + |r|..])
  }

  /** What is left is the infix of `s` between a white-space prefix and a
      white-space suffix. */
  lemma {:induction false} StripIsInfix(s: string)
    ensures exists i :: TrimmedAt(s, Strip(s), i)
    decreases |s|
  {
    var r := Strip(s);
    if s != [] && IsSpace(s[0]) {
      StripIsInfix(s[1..]);
      var i: nat :| TrimmedAt(s[1..], r, i);
      TrimmedAtFront(s, r, i);
    } else if s != [] && IsSpace(s[|s| - 1]) {
      StripIsInfix(s[..|s| - 1]);
      var i: nat :| TrimmedAt(s[..|s| - 1], r, i);
      TrimmedAtBack(s, r, i);
    } else {
      assert TrimmedAt(s, r, 0) by {
        assert r == s[0..0 + |r|] && s[..0] == [] && s[0 + |r|..] == [];
      }
    }
  }

  /** A white-space character in front extends the white-space prefix. */
  lemma TrimmedAtFront(s: string, r: string, i: nat)
    requires s != [] && IsSpace(s[0])
    requires TrimmedAt(s[1..], r, i)
    ensures TrimmedAt(s, r, i + 1)
  {
    var tail := s[1..];
    assert tail[i..i + |r|] == s[i + 1..i + 1 + |r|];
    assert tail[i + |r|..] == s[i + 1 + |r|..];
    var pre := s[..i + 1];
    forall k | 0 <= k < |pre|
      ensures IsSpace(pre[k])
    {
      if k > 0 {
        assert pre[k] == tail[..i][k - 1];
      }
    }
  }

  /** A white-space character at the back extends the white-space suffix. */
  lemma TrimmedAtBack(s: string, r: string, i: nat)
    requires s != [] && IsSpace(s[|s| - 1])
    requires TrimmedAt(s[..|s| - 1], r, i)
    ensures TrimmedAt(s, r, i)
  {
    var init := s[..|s| - 1];
    assert init[i..i + |r|] == s[i..i + |r|];
    assert init[..i] == s[..i];
    var post := s[i + |r|..];
    forall k | 0 <= k < |post|
      ensures IsSpace(post[k])
    {
      if k < |init| - (i + |r|) {
        assert post[k] == init[i + |r|..][k];
      }
    }
  }

  /** Each string of `xs` stripped of surrounding white space, in place. */
  function StripAll(xs: seq<string>): (r: seq<string>)
    ensures |r| == |xs|
    ensures forall k :: 0 <= k < |xs| ==> r[k] == Strip(xs[k])
  {
    seq(|xs|, k requires 0 <= k < |xs| => Strip(xs[k]))
  }

  /** Strip undoes padding: an edgeless string surrounded by white space
      strips back to itself. */
  lemma {:induction false} StripPadded(p: string, r: string, q: string)
    requires AllSpace(p) && AllSpace(q) && Edgeless(r)
    ensures Strip(p + r + q) == r
    decreases |p| + |q|
  {
    var s := p + r + q;
    if p != [] {
      assert s[0] == p[0];
      assert s[1..] == p[1..] + r + q;
      StripPadded(p[1..], r, q);
    } else if r == [] && q != [] {
      assert s == q && s[0] == q[0];
      assert s[1..] == [] + [] + q[1..];
      StripPadded([], [], q[1..]);
    } else if q != [] {
      assert s == r + q && s[0] == r[0] && s[|s| - 1] == q[|q| - 1];
      assert s[..|s| - 1] == [] + r + q[..|q| - 1];
      StripPadded([], r, q[..|q| - 1]);
    } else {
      assert s == r;
    }
  }

  /** Stripping twice is stripping once. */
  lemma StripIdempotent(s: string)
    ensures Strip(Strip(s)) == Strip(s)
  {
    var r := Strip(s);
    assert [] + r + [] == r;
    StripPadded([], r, []);
  }

  /** Python's `s.split(sep)`: the maximal separator-free pieces, in order; the
      empty string splits into one empty piece. */
  function Split(s: string, sep: char): (r: seq<string>)
    ensures |r| >= 1
    ensures forall k :: 0 <= k < |r| ==> sep !in r[k]
  {
    if s == [] then [[]]
    else
      var rest := Split(s[1..], sep);
      if s[0] == sep then [[]] + rest
      else [[s[0]] + rest[0]] + rest[1..]
  }

  /** Python's `sep.join(parts)`. */
  function Join(parts: seq<string>, sep: char): string
    requires |parts| >= 1
    decreases |parts|
  {
    if |parts| == 1 then parts[0] else parts[0] + [sep] + Join(parts[1..], sep)
  }

  /** Joining the pieces of a split gives back the original string. */
  lemma {:induction false} JoinSplit(s: string, sep: char)
    ensures Join(Split(s, sep), sep) == s
  {
    if s != [] {
      var rest := Split(s[1..], sep);
      JoinSplit(s[1..], sep);
      if s[0] == sep {
        assert Split(s, sep)[1..] == rest;
        assert s == [sep] + s[1..];
      } else {
        var r := Split(s, sep);
        assert r[0] == [s[0]] + rest[0];
        if |rest| == 1 {
          assert s == [s[0]] + s[1..];
        } else {
          assert r[1..] == rest[1..];
          assert Join(rest, sep) == rest[0] + [sep] + Join(rest[1..], sep);
          assert s == [s[0]] + s[1..];
        }
      }
    }
  }

  lemma {:induction false} SplitSeparatorFree(x: string, sep: char)
    requires sep !in x
    ensures Split(x, sep) == [x]
    decreases |x|
  {
    if x != [] {
      SplitSeparatorFree(x[1..], sep);
      assert [x[0]] + x[1..] == x;
    }
  }

  lemma {:induction false} SplitAfterPiece(x: string, y: string, sep: char)
    requires sep !in x
    ensures Split(x + [sep] + y, sep) == [x] + Split(y, sep)
    decreases |x|
  {
    if x == [] {
      assert (x + [sep] + y)[1..] == y;
    } else {
      assert (x + [sep] + y)[1..] == x[1..] + [sep] + y;
      SplitAfterPiece(x[1..], y, sep);
      assert [x[0]] + x[1..] == x;
    }
  }

  /** Splitting a join of separator-free pieces gives back the pieces. */
  lemma {:induction false} SplitJoin(parts: seq<string>, sep: char)
    requires |parts| >= 1
    requires forall k :: 0 <= k < |parts| ==> sep !in parts[k]
    ensures Split(Join(parts, sep), sep) == parts
    decreases |parts|
  {
    if |parts| == 1 {
      SplitSeparatorFree(parts[0], sep);
    } else {
      SplitJoin(parts[1..], sep);
      SplitAfterPiece(parts[0], Join(parts[1..], sep), sep);
      assert [parts[0]] + parts[1..] == parts;
    }
  }
}
