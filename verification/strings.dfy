/** Go's `strings.ToLower`, `SplitN(s, ".", 2)` and `ReplaceAll`, which the
    query decoder calls, and the dot split and join that the model of
    `net.ParseIP`'s IPv4 branch uses, over `string` = `seq<char>`. Case
    mapping covers ASCII letters only. */
module Strings {
  import opened Base

  predicate IsUpper(c: char) {
    'A' <= c <= 'Z'
  }

  function LowerChar(c: char): char {
    if IsUpper(c) then (c as int + 32) as char else c
  }

  /** No character of `s` is an upper-case letter. */
  predicate NoUpper(s: string) {
    forall c | c in s :: !IsUpper(c)
  }

  /** strings.ToLower */
  function ToLower(s: string): (r: string)
    ensures |r| == |s|
    ensures NoUpper(r)
    ensures NoUpper(s) ==> r == s
    ensures ('.' in r) <==> ('.' in s)
    ensures forall i {:trigger r[i]} | 0 <= i < |s| :: (r[i] == '.') == (s[i] == '.')
    ensures forall i {:trigger r[i]} | 0 <= i < |s| :: !IsUpper(s[i]) ==> r[i] == s[i]
    ensures forall i {:trigger r[i]} | 0 <= i < |s| :: IsUpper(s[i]) ==> r[i] as int == s[i] as int + ('a' as int - 'A' as int)
  {
    var r := seq(|s|, i requires 0 <= i < |s| => LowerChar(s[i]));
    assert forall i | 0 <= i < |s| :: (r[i] == '.') == (s[i] == '.');
    r
  }

  /** strings.Index for a one-character separator: the position of the
      first `c` in `s`, or -1 when there is none. */
  function IndexOf(s: string, c: char): (i: int)
    ensures -1 <= i < |s|
    ensures i == -1 <==> c !in s
    ensures 0 <= i ==> s[i] == c && forall k | 0 <= k < i :: s[k] != c
    decreases |s|
  {
    if s == [] then -1
    else if s[0] == c then 0
    else
      var j := IndexOf(s[1..], c);
      if j == -1 then -1 else j + 1
  }

  /** strings.SplitN(s, ".", 2): the text before the first dot and the
      text after it, or None when `s` holds no dot (Go then returns a
      one-element slice). */
  function SplitFirstDot(s: string): (r: Option<(string, string)>)
    ensures r.None? <==> '.' !in s
    ensures r.Some? ==> '.' !in r.value.0 && s == r.value.0 + "." + r.value.1
  {
    var i := IndexOf(s, '.');
    if i < 0 then None
    else
      assert s == s[..i] + "." + s[i + 1..];
      assert forall k | 0 <= k < i :: s[..i][k] == s[k];
      Some((s[..i], s[i + 1..]))
  }

  /** Splitting never finds a dot inside the first label: the split of
      `first + "." + rest` is exactly that pair, whatever `rest` holds. */
  lemma SplitFirstDotUnique(first: string, rest: string)
    requires '.' !in first
    ensures SplitFirstDot(first + "." + rest) == Some((first, rest))
  {
    var s := first + "." + rest;
    var i := IndexOf(s, '.');
    assert s[|first|] == '.';
    assert forall k | 0 <= k < |first| :: s[k] == first[k];
    if i < |first| {
      assert false;
    }
    if i > |first| {
      assert false;
    }
    assert s[..i] == first;
    assert s[i + 1..] == rest;
  }

  /** Every dot-separated field of `s`, in order: the four octet texts of
      a dotted quad, as net.ParseIP's IPv4 branch reads them. */
  function SplitDots(s: string): (r: seq<string>)
    ensures |r| >= 1
    ensures forall f | f in r :: '.' !in f
    ensures JoinDots(r) == s
    decreases |s|
  {
    match SplitFirstDot(s)
    case None => [s]
    case Some((first, rest)) => [first] + SplitDots(rest)
  }

  /** The fields with '.' between them, the inverse of SplitDots. */
  function JoinDots(fields: seq<string>): string
    requires |fields| >= 1
  {
    if |fields| == 1 then fields[0] else fields[0] + "." + JoinDots(fields[1..])
  }

  /** Splitting a join of dot-free fields gives the fields back. */
  lemma {:induction false} SplitJoinDots(fields: seq<string>)
    requires |fields| >= 1
    requires forall f | f in fields :: '.' !in f
    ensures SplitDots(JoinDots(fields)) == fields
    decreases |fields|
  {
    if |fields| == 1 {
      assert JoinDots(fields) == fields[0];
    } else {
      assert fields[0] in fields;
      assert forall f | f in fields[1..] :: f in fields;
      SplitJoinDots(fields[1..]);
      SplitFirstDotUnique(fields[0], JoinDots(fields[1..]));
    }
  }

  /** strings.ReplaceAll: every non-overlapping occurrence of `pat`,
      found left to right, replaced by `rep`. For an empty `pat`, `rep`
      goes before every character and at the end, as in Go. */
  function ReplaceAll(s: string, pat: string, rep: string): (r: string)
    ensures |pat| > 0 && |rep| <= |pat| ==> |r| <= |s|
    ensures |pat| == 1 && pat[0] !in rep ==> pat[0] !in r
    ensures forall c | c in r :: c in s || c in rep
    decreases |s|
  {
    if pat == [] then
      if s == [] then rep else rep + [s[0]] + ReplaceAll(s[1..], pat, rep)
    else if s == [] then []
    else if pat <= s then rep + ReplaceAll(s[|pat|..], pat, rep)
    else [s[0]] + ReplaceAll(s[1..], pat, rep)
  }

  /** Text with no occurrence of the pattern is left as it is. */
  lemma {:induction false} ReplaceAbsent(s: string, pat: string, rep: string)
    requires |pat| > 0
    requires forall i | 0 <= i < |s| :: !(pat <= s[i..])
    ensures ReplaceAll(s, pat, rep) == s
    decreases |s|
  {
    if s != [] {
      assert !(pat <= s[0..]);
      assert s[0..] == s;
      forall i | 0 <= i < |s| - 1
        ensures !(pat <= s[1..][i..])
      {
        assert s[1..][i..] == s[i + 1..];
      }
      ReplaceAbsent(s[1..], pat, rep);
    }
  }

  /** Text without the pattern's first character is left as it is. */
  lemma ReplaceMissing(s: string, pat: string, rep: string)
    ensures |pat| > 0 && pat[0] !in s ==> ReplaceAll(s, pat, rep) == s
  {
    if |pat| > 0 && pat[0] !in s {
      forall i | 0 <= i < |s|
        ensures !(pat <= s[i..])
      {
        assert s[i..][0] == s[i];
      }
      ReplaceAbsent(s, pat, rep);
    }
  }

  /** Replacing a single character distributes over concatenation. */
  lemma {:induction false} ReplaceCharConcat(s: string, t: string, pat: char, rep: string)
    ensures ReplaceAll(s + t, [pat], rep) == ReplaceAll(s, [pat], rep) + ReplaceAll(t, [pat], rep)
    decreases |s|
  {
    if s == [] {
      assert s + t == t;
    } else {
      var head := if s[0] == pat then rep else [s[0]];
      assert ReplaceAll(s + t, [pat], rep) == head + ReplaceAll(s[1..] + t, [pat], rep) by {
        assert (s + t)[1..] == s[1..] + t;
        assert (s + t)[0] == s[0];
      }
      assert ReplaceAll(s, [pat], rep) == head + ReplaceAll(s[1..], [pat], rep);
      ReplaceCharConcat(s[1..], t, pat, rep);
      var a, b := ReplaceAll(s[1..], [pat], rep), ReplaceAll(t, [pat], rep);
      assert head + (a + b) == (head + a) + b;
    }
  }

}
