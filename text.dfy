/** The string operations of Python's str type that the converter relies on. */
module Text {
  import opened Wrappers

  /** The characters for which Python's str.isspace() holds. */
  predicate IsSpace(c: char)
  {
    c == ' ' || ('\t' <= c <= '\r') || ('\U{1C}' <= c <= '\U{1F}') || c == '\U{85}' || c == '\U{A0}'
    || c == '\U{1680}' || ('\U{2000}' <= c <= '\U{200A}') || c == '\U{2028}' || c == '\U{2029}'
    || c == '\U{202F}' || c == '\U{205F}' || c == '\U{3000}'
  }

  predicate NoSpace(s: string)
  {
    forall i :: 0 <= i < |s| ==> !IsSpace(s[i])
  }

  /** s.lstrip(): the suffix of s left after its leading whitespace. */
  function StripStart(s: string): (r: string)
    ensures |r| <= |s| && r == s[|s| - |r|..]
    ensures forall k {:trigger IsSpace(s[k])} :: 0 <= k < |s| - |r| ==> IsSpace(s[k])
    ensures r == [] || !IsSpace(r[0])
  {
    if s != [] && IsSpace(s[0]) then
      var r := StripStart(s[1..]);
      forall k | 1 <= k < |s| - |r| ensures IsSpace(s[k]) {
        assert s[k] == s[1..][k - 1];
      }
      r
    else s
  }

  /** s.rstrip(): the prefix of s left before its trailing whitespace. */
  function StripEnd(s: string): (r: string)
    ensures |r| <= |s| && r == s[..|r|]
    ensures forall k {:trigger IsSpace(s[k])} :: |r| <= k < |s| ==> IsSpace(s[k])
    ensures r == [] || !IsSpace(r[|r| - 1])
  {
    if s != [] && IsSpace(s[|s| - 1]) then
      var r := StripEnd(s[..|s| - 1]);
      assert s[..|s| - 1][..|r|] == s[..|r|];
      r
    else s
  }

  /** s.strip(): s without its leading and trailing whitespace. */
  function Strip(s: string): (r: string)
    ensures r == [] || (!IsSpace(r[0]) && !IsSpace(r[|r| - 1]))
  {
    StripEnd(StripStart(s))
  }

  /** Strip removes whitespace at the ends only: what it returns is a slice of s
      with nothing but whitespace on either side. */
  lemma StripIsSlice(s: string)
    ensures |Strip(s)| <= |StripStart(s)| <= |s|
    ensures Strip(s) == s[|s| - |StripStart(s)|..|s| - |StripStart(s)| + |Strip(s)|]
    ensures forall k {:trigger IsSpace(s[k])} :: 0 <= k < |s| - |StripStart(s)| ==> IsSpace(s[k])
    ensures forall k {:trigger IsSpace(s[k])} :: |s| - |StripStart(s)| + |Strip(s)| <= k < |s| ==> IsSpace(s[k])
  {
    var t := StripStart(s);
    var r := StripEnd(t);
    assert Strip(s) == r;
    TrimmedSlice(s, t, r);
  }

  /** Cutting whitespace off the front of s, giving t, and then off the back of t,
      giving r, leaves the slice of s between the two cuts. */
  lemma TrimmedSlice(s: string, t: string, r: string)
    requires |t| <= |s| && t == s[|s| - |t|..]
    requires |r| <= |t| && r == t[..|r|]
    requires forall k {:trigger IsSpace(t[k])} :: |r| <= k < |t| ==> IsSpace(t[k])
    ensures r == s[|s| - |t|..|s| - |t| + |r|]
    ensures forall k {:trigger IsSpace(s[k])} :: |s| - |t| + |r| <= k < |s| ==> IsSpace(s[k])
  {
    var i := |s| - |t|;
    forall k | i + |r| <= k < |s| ensures IsSpace(s[k]) {
      assert |r| <= k - i < |t| && s[k] == t[k - i];
    }
  }

  /** A string with no whitespace at either end is left as it is. */
  lemma StripUnchanged(s: string)
    requires s == [] || (!IsSpace(s[0]) && !IsSpace(s[|s| - 1]))
    ensures Strip(s) == s
  {
  }

  /** s.replace(' ', '+'). */
  function SpacesToPlus(s: string): (r: string)
    ensures |r| == |s| && ' ' !in r
    ensures forall i :: 0 <= i < |s| && s[i] != ' ' ==> r[i] == s[i]
    ensures forall i :: 0 <= i < |s| && s[i] == ' ' ==> r[i] == '+'
  {
    if s == [] then [] else [if s[0] == ' ' then '+' else s[0]] + SpacesToPlus(s[1..])
  }

  /** sep.join(xs). */
  function Join(xs: seq<string>, sep: string): string
  {
    if |xs| == 0 then ""
    else if |xs| == 1 then xs[0]
    else Join(xs[..|xs| - 1], sep) + sep + xs[|xs| - 1]
  }

  /** s.find(c) when c occurs: the position of the first c in s. */
  function IndexOf(s: string, c: char): (r: Option<nat>)
    ensures r.None? <==> c !in s
    ensures r.Some? ==> r.value < |s| && s[r.value] == c && c !in s[..r.value]
  {
    if s == [] then None
    else if s[0] == c then Some(0)
    else
      match IndexOf(s[1..], c)
      case None => None
      case Some(i) =>
        assert s[..i + 1] == [s[0]] + s[1..][..i];
        Some(i + 1)
  }

  /** The first c is the only c with no c before it. */
  lemma IndexOfAt(s: string, c: char, i: nat)
    requires i < |s| && s[i] == c && c !in s[..i]
    ensures IndexOf(s, c) == Some(i)
  {
    var j := IndexOf(s, c).value;
    assert forall k :: 0 <= k < i ==> s[..i][k] == s[k] != c;
    assert forall k :: 0 <= k < j ==> s[..j][k] == s[k] != c;
  }

  /** Python's s.split(c, maxsplit=1) when it yields two parts: the text before the
      first c and the text after it; None when c does not occur. */
  function SplitFirst(s: string, c: char): Option<(string, string)>
  {
    match IndexOf(s, c)
    case None => None
    case Some(i) => Some((s[..i], s[i + 1..]))
  }

  /** SplitFirst fails exactly when c does not occur; otherwise the two parts joined
      around c give back s, and the first part holds no c. */
  lemma SplitFirstSpec(s: string, c: char)
    ensures SplitFirst(s, c).None? <==> c !in s
    ensures SplitFirst(s, c).Some? ==>
      s == SplitFirst(s, c).value.0 + [c] + SplitFirst(s, c).value.1 && c !in SplitFirst(s, c).value.0
  {
    if c in s {
      var i := IndexOf(s, c).value;
      assert s == s[..i] + [c] + s[i + 1..];
    }
  }

  /** SplitFirst undoes joining two parts around c when c is not in the first. */
  lemma SplitFirstJoin(a: string, c: char, b: string)
    requires c !in a
    ensures SplitFirst(a + [c] + b, c) == Some((a, b))
  {
    var s := a + [c] + b;
    assert s[..|a|] == a;
    IndexOfAt(s, c, |a|);
    assert s[|a| + 1..] == b;
  }

  /** Python's s.split(c)[0]: the text before the first c, or all of s. */
  function BeforeFirst(s: string, c: char): string
  {
    match IndexOf(s, c)
    case None => s
    case Some(i) => s[..i]
  }

  /** BeforeFirst is the longest prefix of s without c: what follows it, if anything, is c. */
  lemma BeforeFirstSpec(s: string, c: char)
    ensures var r := BeforeFirst(s, c);
      |r| <= |s| && c !in r && r == s[..|r|] && (|r| == |s| || s[|r|] == c)
  {
  }

  /** BeforeFirst keeps exactly the part before the first c, whatever follows it. */
  lemma BeforeFirstJoin(a: string, c: char, b: string)
    requires c !in a
    ensures BeforeFirst(a + [c] + b, c) == a
  {
    var s := a + [c] + b;
    assert s[..|a|] == a;
    IndexOfAt(s, c, |a|);
  }

  /** a is obtained from b by deleting some of its characters. */
  predicate IsSubsequence(a: string, b: string)
    decreases |b|
  {
    if a == [] then true
    else if b == [] then false
    else (a[0] == b[0] && IsSubsequence(a[1..], b[1..])) || IsSubsequence(a, b[1..])
  }
}
