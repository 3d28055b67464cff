/**
 * The small amount of string handling the plugin relies on: Python's
 * `str.strip()` on byte strings, and the way `str.format` renders the
 * integers and booleans that appear in its replies.
 */
module Text {
  import opened Sequences

  /** The characters Python 2's `str.strip()` removes: space, tab, line feed,
      carriage return, vertical tab and form feed. */
  predicate IsWhitespace(c: char) {
    c == ' ' || c == '\t' || c == '\n' || c == '\r' || c == '\U{000B}' || c == '\U{000C}'
  }

  predicate AllWhitespace(s: string) {
    forall i :: 0 <= i < |s| ==> IsWhitespace(s[i])
  }

  /** `s` with its leading whitespace removed. */
  function TrimLeft(s: string): string {
    if s != [] && IsWhitespace(s[0]) then TrimLeft(s[1..]) else s
  }

  /** `s` with its trailing whitespace removed. */
  function TrimRight(s: string): string {
    if s != [] && IsWhitespace(s[|s| - 1]) then TrimRight(s[..|s| - 1]) else s
  }

  /** TrimLeft keeps a suffix of `s` that starts with a non-whitespace
      character, and all that it drops is whitespace. */
  lemma {:induction false} TrimLeftSpec(s: string)
    ensures |TrimLeft(s)| <= |s| && TrimLeft(s) == s[|s| - |TrimLeft(s)|..]
    ensures AllWhitespace(s[..|s| - |TrimLeft(s)|])
    ensures TrimLeft(s) == [] || !IsWhitespace(TrimLeft(s)[0])
  {
    if s != [] && IsWhitespace(s[0]) {
      TrimLeftSpec(s[1..]);
      var r := TrimLeft(s[1..]);
      assert s[1..][..|s| - 1 - |r|] == s[1..|s| - |r|];
      assert s[..|s| - |r|] == [s[0]] + s[1..|s| - |r|];
    }
  }

  /** TrimRight keeps a prefix of `s` that ends with a non-whitespace
      character, and all that it drops is whitespace. */
  lemma {:induction false} TrimRightSpec(s: string)
    ensures |TrimRight(s)| <= |s| && TrimRight(s) == s[..|TrimRight(s)|]
    ensures AllWhitespace(s[|TrimRight(s)|..])
    ensures TrimRight(s) == [] || !IsWhitespace(TrimRight(s)[|TrimRight(s)| - 1])
  {
    if s != [] && IsWhitespace(s[|s| - 1]) {
      var init := s[..|s| - 1];
      TrimRightSpec(init);
      var r := TrimRight(init);
      assert s[|r|..] == init[|r|..] + [s[|s| - 1]];
    }
  }

  /** Python's `s.strip()`: the longest infix of `s` that neither starts nor
      ends with whitespace, once only whitespace is cut from both ends. */
  function Strip(s: string): (r: string)
    ensures |r| <= |s|
    ensures r == [] || (!IsWhitespace(r[0]) && !IsWhitespace(r[|r| - 1]))
  {
    TrimLeftSpec(s);
    TrimRightSpec(TrimLeft(s));
    var left := TrimLeft(s);
    assert TrimRight(left) != [] ==> TrimRight(left)[0] == left[0];
    TrimRight(left)
  }

  /** Cutting whitespace from the front of `pad + s` is the same as from `s`. */
  lemma {:induction false} TrimLeftSkips(pad: string, s: string)
    requires AllWhitespace(pad)
    ensures TrimLeft(pad + s) == TrimLeft(s)
  {
    if pad != [] {
      assert (pad + s)[1..] == pad[1..] + s;
      TrimLeftSkips(pad[1..], s);
    } else {
      assert pad + s == s;
    }
  }

  /** Cutting whitespace from the back of `s + pad` is the same as from `s`. */
  lemma {:induction false} TrimRightSkips(s: string, pad: string)
    requires AllWhitespace(pad)
    ensures TrimRight(s + pad) == TrimRight(s)
  {
    if pad != [] {
      var shorter := pad[..|pad| - 1];
      assert (s + pad)[..|s + pad| - 1] == s + shorter;
      TrimRightSkips(s, shorter);
    } else {
      assert s + pad == s;
    }
  }

  /** Strip is characterised by its result: whatever whitespace surrounds a
      core that neither starts nor ends with whitespace, Strip gives the core. */
  lemma StripUnique(pre: string, core: string, post: string)
    requires AllWhitespace(pre) && AllWhitespace(post)
    requires core == [] || (!IsWhitespace(core[0]) && !IsWhitespace(core[|core| - 1]))
    ensures Strip(pre + core + post) == core
  {
    assert pre + core + post == pre + (core + post);
    TrimLeftSkips(pre, core + post);
    if core == [] {
      assert core + post == post;
      TrimLeftSkips(post, []);
      assert post + [] == post;
    } else {
      assert TrimLeft(core + post) == core + post;
      TrimRightSkips(core, post);
    }
  }

  /** Stripping twice is stripping once. */
  lemma StripIdempotent(s: string)
    ensures Strip(Strip(s)) == Strip(s)
  {
    var r := Strip(s);
    if r != [] {
      assert TrimLeft(r) == r;
      assert TrimRight(r) == r;
    }
  }

  lemma AllWhitespaceAppend(a: string, b: string)
    requires AllWhitespace(a) && AllWhitespace(b)
    ensures AllWhitespace(a + b)
  {
    forall i | 0 <= i < |a + b|
      ensures IsWhitespace((a + b)[i])
    {
      if i >= |a| {
        assert (a + b)[i] == b[i - |a|];
      }
    }
  }

  /** Every string is its strip surrounded by whitespace. */
  lemma StripDecompose(s: string) returns (front: string, back: string)
    ensures AllWhitespace(front) && AllWhitespace(back)
    ensures s == front + Strip(s) + back
  {
    var left := TrimLeft(s);
    TrimLeftSpec(s);
    TrimRightSpec(left);
    var r := TrimRight(left);
    front, back := s[..|s| - |left|], left[|r|..];
    assert s == front + left;
    assert left == r + back;
    Reassociate(front, r, back);
  }

  /** Extra whitespace on either side of a string does not change its strip. */
  lemma StripIgnoresPadding(pre: string, s: string, post: string)
    requires AllWhitespace(pre) && AllWhitespace(post)
    ensures Strip(pre + s + post) == Strip(s)
  {
    var front, back := StripDecompose(s);
    AllWhitespaceAppend(pre, front);
    AllWhitespaceAppend(back, post);
    Regroup(pre, front, Strip(s), back, post);
    StripUnique(pre + front, Strip(s), back + post);
  }

  function DigitChar(d: nat): char
    requires d < 10
  {
    "0123456789"[d]
  }

  /** The decimal rendering of a natural number, as `str.format` gives it. */
  function NatToString(n: nat): (r: string)
    ensures |r| >= 1
    ensures forall i :: 0 <= i < |r| ==> '0' <= r[i] <= '9'
  {
    if n < 10 then [DigitChar(n)] else NatToString(n / 10) + [DigitChar(n % 10)]
  }

  /** The decimal rendering of an integer id, with a leading minus sign when negative. */
  function IntToString(n: int): string {
    if n < 0 then "-" + NatToString(-n) else NatToString(n)
  }

  /** How Python renders a boolean inside a formatted string. */
  function BoolToString(b: bool): string {
    if b then "True" else "False"
  }
}
