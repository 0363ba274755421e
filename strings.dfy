/** The two functions of Go's `strings` package that the htpasswd parser
    relies on, over text as a sequence of Unicode code points. */
module GoStrings {

  /** `unicode.IsSpace`: the characters with the Unicode White_Space property. */
  predicate IsSpace(c: char)
  {
    || ('\U{0009}' <= c <= '\U{000D}')
    || c == ' '
    || c == '\U{0085}'
    || c == '\U{00A0}'
    || c == '\U{1680}'
    || ('\U{2000}' <= c <= '\U{200A}')
    || c == '\U{2028}'
    || c == '\U{2029}'
    || c == '\U{202F}'
    || c == '\U{205F}'
    || c == '\U{3000}'
  }

  /** Drops the leading white space. */
  function TrimLeft(s: string): (r: string)
    ensures |r| <= |s|
  {
    if s != [] && IsSpace(s[0]) then TrimLeft(s[1..]) else s
  }

  /** Drops the trailing white space. */
  function TrimRight(s: string): (r: string)
    ensures |r| <= |s|
  {
    if s != [] && IsSpace(s[|s| - 1]) then TrimRight(s[..|s| - 1]) else s
  }

  /** `strings.TrimSpace`: drops leading and trailing white space. */
  function TrimSpace(s: string): (r: string)
    ensures |r| <= |s|
  {
    TrimRight(TrimLeft(s))
  }

  /** The number of white-space characters `s` starts with. */
  function LeadingSpace(s: string): nat
  {
    |s| - |TrimLeft(s)|
  }

  /** TrimLeft keeps the suffix of `s` that starts at its first non-space
      character. */
  lemma {:induction false} TrimLeftSpec(s: string)
    ensures TrimLeft(s) == s[LeadingSpace(s)..]
    ensures forall k :: 0 <= k < LeadingSpace(s) ==> IsSpace(s[k])
    ensures LeadingSpace(s) < |s| ==> !IsSpace(s[LeadingSpace(s)])
  {
    if s != [] && IsSpace(s[0]) {
      TrimLeftSpec(s[1..]);
    }
  }

  /** TrimRight keeps the prefix of `s` that ends at its last non-space
      character. */
  lemma {:induction false} TrimRightSpec(s: string)
    ensures TrimRight(s) == s[..|TrimRight(s)|]
    ensures forall k :: |TrimRight(s)| <= k < |s| ==> IsSpace(s[k])
    ensures TrimRight(s) != [] ==> !IsSpace(s[|TrimRight(s)| - 1])
  {
    if s != [] && IsSpace(s[|s| - 1]) {
      TrimRightSpec(s[..|s| - 1]);
    }
  }

  /** `TrimSpace(s)` is the slice of `s` that starts at `LeadingSpace(s)`
      and leaves out only white space on either side, and it neither starts
      nor ends with white space. */
  lemma TrimSpaceSpec(s: string)
    ensures LeadingSpace(s) + |TrimSpace(s)| <= |s|
    ensures TrimSpace(s) == s[LeadingSpace(s)..LeadingSpace(s) + |TrimSpace(s)|]
    ensures forall k :: 0 <= k < LeadingSpace(s) ==> IsSpace(s[k])
    ensures forall k :: LeadingSpace(s) + |TrimSpace(s)| <= k < |s| ==> IsSpace(s[k])
    ensures TrimSpace(s) != [] ==> !IsSpace(TrimSpace(s)[0]) && !IsSpace(TrimSpace(s)[|TrimSpace(s)| - 1])
  {
    var l := TrimLeft(s);
    var i := LeadingSpace(s);
    var r := TrimSpace(s);
    TrimLeftSpec(s);
    TrimRightSpec(l);
    forall k | i + |r| <= k < |s| ensures IsSpace(s[k]) {
      assert s[k] == l[k - i];
    }
  }

  /** `TrimSpace(s)` is empty exactly when `s` is all white space. */
  lemma TrimSpaceEmpty(s: string)
    ensures TrimSpace(s) == [] <==> forall k :: 0 <= k < |s| ==> IsSpace(s[k])
  {
    TrimSpaceSpec(s);
    var i := LeadingSpace(s);
    if TrimSpace(s) == [] {
      forall k | 0 <= k < |s| ensures IsSpace(s[k]) {
        if k >= i {
          assert i + |TrimSpace(s)| <= k;
        }
      }
    } else {
      assert s[i] == TrimSpace(s)[0];
    }
  }

  /** `strings.Index` for a one-character separator: the position of the
      first occurrence of `c` in `s`, or -1 when `c` does not occur. */
  function Index(s: string, c: char): (r: int)
    ensures -1 <= r < |s|
  {
    if s == [] then -1
    else if s[0] == c then 0
    else
      var k := Index(s[1..], c);
      if k < 0 then -1 else k + 1
  }

  /** `Index(s, c)` is -1 exactly when `c` does not occur in `s`, and
      otherwise a position of `c` with no `c` before it. */
  lemma {:induction false} IndexSpec(s: string, c: char)
    ensures Index(s, c) == -1 <==> c !in s
    ensures 0 <= Index(s, c) ==> s[Index(s, c)] == c && c !in s[..Index(s, c)]
  {
    if s != [] && s[0] != c {
      IndexSpec(s[1..], c);
      assert s == [s[0]] + s[1..];
      if 0 <= Index(s, c) {
        assert s[..Index(s, c)] == [s[0]] + s[1..][..Index(s[1..], c)];
      }
    }
  }
}
