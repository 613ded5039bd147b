/** The alias escape of `cname-` labels. A DNS label cannot carry a '.',
    and '-' is the escape character, so an alias is written into a label
    with '-' as "--" and '.' as "-d"; the decoder undoes this with three
    ReplaceAll passes in a fixed order ("--" to '_', "-d" to '.', '_' to
    '-'). */
module AliasEscape {
  import opened Strings

  /** The three-pass decoding applied to the text after `cname-`. */
  function Unescape(s: string): (r: string)
    ensures '_' !in r
    ensures |r| <= |s|
    ensures '-' !in s && '_' !in s ==> r == s
  {
    var sentinels := ReplaceAll(s, "--", "_");
    var dotted := ReplaceAll(sentinels, "-d", ".");
    ReplaceMissing(s, "--", "_");
    ReplaceMissing(sentinels, "-d", ".");
    ReplaceMissing(dotted, "_", "-");
    ReplaceAll(dotted, "_", "-")
  }

  function EscapeChar(c: char): string {
    if c == '-' then "--" else if c == '.' then "-d" else [c]
  }

  /** The encoding a client applies to an alias to build a `cname-` label. */
  function Escape(alias: string): (r: string)
    ensures '.' !in r
    ensures |r| >= |alias|
    ensures NoUpper(alias) ==> NoUpper(r)
  {
    if alias == [] then []
    else
      assert alias[0] in alias;
      assert forall c | c in alias[1..] :: c in alias;
      EscapeChar(alias[0]) + Escape(alias[1..])
  }

  /** What the first pass leaves of an escaped alias: each literal '-'
      has become the sentinel '_', each "-d" is still in place. */
  function SentinelForm(alias: string): string {
    if alias == [] then []
    else (if alias[0] == '-' then "_" else EscapeChar(alias[0])) + SentinelForm(alias[1..])
  }

  /** Pass one across the escape of one character: an escaped '-' becomes
      the sentinel, and the "--" pattern cannot start inside "-d" or at
      a plain character, whatever follows. */
  lemma FirstPassStep(c: char, tail: string)
    ensures ReplaceAll(EscapeChar(c) + tail, "--", "_")
            == (if c == '-' then "_" else EscapeChar(c)) + ReplaceAll(tail, "--", "_")
  {
    if c == '-' {
      FirstPassOnDash(tail);
    } else if c == '.' {
      FirstPassOnDot(tail);
    } else {
      FirstPassOnPlain(c, tail);
    }
  }

  lemma FirstPassOnDash(tail: string)
    ensures ReplaceAll("--" + tail, "--", "_") == "_" + ReplaceAll(tail, "--", "_")
  {
    var s := "--" + tail;
    assert "--" <= s;
    assert s[2..] == tail;
  }

  lemma FirstPassOnDot(tail: string)
    ensures ReplaceAll("-d" + tail, "--", "_") == "-d" + ReplaceAll(tail, "--", "_")
  {
    var s := "-d" + tail;
    var rest := ReplaceAll(tail, "--", "_");
    assert ReplaceAll(s[1..], "--", "_") == "d" + rest by {
      assert s[1..] == "d" + tail;
      assert s[1..][0] == 'd';
      assert !("--" <= s[1..]);
      assert s[1..][1..] == tail;
    }
    assert s[1] == 'd' && "--"[1] == '-';
    assert !("--" <= s);
  }

  lemma FirstPassOnPlain(c: char, tail: string)
    requires c != '-' && c != '.'
    ensures ReplaceAll([c] + tail, "--", "_") == [c] + ReplaceAll(tail, "--", "_")
  {
    var s := [c] + tail;
    assert s[0] == c && "--"[0] == '-';
    assert !("--" <= s);
    assert s[1..] == tail;
  }

  /** Pass one on an escaped alias turns exactly the "--" pairs into '_':
      a "-d" escape is never cut in half, because the pairs it could
      overlap with start at a token boundary. */
  lemma {:induction false} FirstPassOnEscape(alias: string)
    ensures ReplaceAll(Escape(alias), "--", "_") == SentinelForm(alias)
    decreases |alias|
  {
    if alias != [] {
      FirstPassStep(alias[0], Escape(alias[1..]));
      FirstPassOnEscape(alias[1..]);
    }
  }

  /** Pass two on the sentinel form turns every "-d" into '.', leaving
      the alias with its dashes still standing as sentinels. */
  lemma {:induction false} SecondPassOnSentinels(alias: string)
    ensures ReplaceAll(SentinelForm(alias), "-d", ".") == ReplaceAll(alias, "-", "_")
    decreases |alias|
  {
    if alias != [] {
      var c := alias[0];
      var s := SentinelForm(alias);
      var tail := SentinelForm(alias[1..]);
      SecondPassOnSentinels(alias[1..]);
      if c == '-' {
        assert s == "_" + tail;
        assert s[0] == '_' && "-d"[0] == '-';
        assert !("-d" <= s);
        assert s[1..] == tail;
      } else if c == '.' {
        assert s == "-d" + tail;
        assert "-d" <= s;
        assert s[2..] == tail;
      } else {
        assert s == [c] + tail;
        assert s[0] == c && c != '-' && "-d"[0] == '-';
        assert !("-d" <= s);
        assert s[1..] == tail;
      }
    }
  }

  /** Pass three restores the dashes, provided the alias held no '_' of
      its own. */
  lemma {:induction false} ThirdPassRestores(alias: string)
    requires '_' !in alias
    ensures ReplaceAll(ReplaceAll(alias, "-", "_"), "_", "-") == alias
    decreases |alias|
  {
    if alias != [] {
      assert alias[0] in alias;
      assert forall c | c in alias[1..] :: c in alias;
      ThirdPassRestores(alias[1..]);
      var t := ReplaceAll(alias, "-", "_");
      var tail := ReplaceAll(alias[1..], "-", "_");
      if alias[0] == '-' {
        assert t == "_" + tail;
        assert t[1..] == tail;
      } else {
        assert t == [alias[0]] + tail;
        assert t[1..] == tail;
      }
    }
  }

  /** The decoding is a left inverse of the encoding on every alias that
      holds no '_' (in particular every host name over [a-z0-9.-]). */
  lemma UnescapeEscape(alias: string)
    requires '_' !in alias
    ensures Unescape(Escape(alias)) == alias
  {
    FirstPassOnEscape(alias);
    SecondPassOnSentinels(alias);
    ThirdPassRestores(alias);
  }

  /** Escaping distributes over concatenation. */
  lemma {:induction false} EscapeConcat(a: string, b: string)
    ensures Escape(a + b) == Escape(a) + Escape(b)
    decreases |a|
  {
    if a != [] {
      assert (a + b)[0] == a[0];
      assert (a + b)[1..] == a[1..] + b;
      EscapeConcat(a[1..], b);
    } else {
      assert a + b == b;
    }
  }

  /** An alias with no '-' and no '.' is its own escape. */
  lemma {:induction false} EscapePlain(alias: string)
    requires '-' !in alias && '.' !in alias
    ensures Escape(alias) == alias
    decreases |alias|
  {
    if alias != [] {
      assert alias[0] in alias;
      assert forall c | c in alias[1..] :: c in alias;
      EscapePlain(alias[1..]);
    }
  }

  /** A three-label host name such as "foo.example.net" is carried as
      "foo-dexample-dnet" and decoded back. */
  lemma UnescapeThreeLabels(a: string, b: string, c: string)
    requires '-' !in a && '.' !in a && '_' !in a
    requires '-' !in b && '.' !in b && '_' !in b
    requires '-' !in c && '.' !in c && '_' !in c
    ensures Escape(a + "." + b + "." + c) == a + "-d" + b + "-d" + c
    ensures Unescape(a + "-d" + b + "-d" + c) == a + "." + b + "." + c
  {
    var dot := ".";
    EscapePlain(a);
    EscapePlain(b);
    EscapePlain(c);
    assert Escape(dot) == "-d";
    EscapeConcat(a + dot + b + dot, c);
    EscapeConcat(a + dot + b, dot);
    EscapeConcat(a + dot, b);
    EscapeConcat(a, dot);
    UnescapeEscape(a + "." + b + "." + c);
  }

  /** A '-' that is neither doubled nor followed by 'd' stands for
      itself: between two dash-free texts without '_', the second of which
      does not start with 'd', decoding leaves it in place. */
  lemma LoneDashKept(u: string, v: string)
    requires '-' !in u && '_' !in u && '-' !in v && '_' !in v
    requires v == [] || v[0] != 'd'
    ensures Unescape(u + "-" + v) == u + "-" + v
  {
    var t := u + "-" + v;
    forall i | 0 <= i < |t|
      ensures !("--" <= t[i..]) && !("-d" <= t[i..])
    {
      if i < |u| {
        assert t[i..][0] == u[i];
        assert u[i] in u;
      } else if i == |u| {
        if |v| > 0 {
          assert t[i..][1] == v[0];
          assert v[0] in v;
        } else {
          assert |t[i..]| == 1;
        }
      } else {
        assert t[i..][0] == v[i - |u| - 1];
        assert v[i - |u| - 1] in v;
      }
    }
    ReplaceAbsent(t, "--", "_");
    ReplaceAbsent(t, "-d", ".");
    assert '_' !in t by {
      assert forall c | c in t :: c in u || c == '-' || c in v;
    }
    ReplaceMissing(t, "_", "-");
  }

  /** A '-' between two plain characters is escaped as "--". */
  lemma EscapeDash(x: char, y: char)
    requires x != '-' && x != '.' && y != '-' && y != '.'
    ensures Escape([x, '-', y]) == [x, '-', '-', y]
  {
    var t := [x, '-', y];
    assert t[1..] == ['-', y] && t[1..][1..] == [y] && [y][1..] == [];
    assert Escape([y]) == [y];
    assert Escape(['-', y]) == "--" + [y];
  }

  /** The decoding is not injective: a '-' before any letter but 'd'
      stands for itself, so "a-b" and its escape "a--b" decode alike. */
  lemma UnescapeAmbiguous(x: char, y: char)
    requires x != '-' && x != '.' && x != '_'
    requires y != '-' && y != '.' && y != '_' && y != 'd'
    ensures Escape([x, '-', y]) == [x, '-', '-', y]
    ensures Unescape([x, '-', '-', y]) == [x, '-', y]
    ensures Unescape([x, '-', y]) == [x, '-', y]
  {
    EscapeDash(x, y);
    UnescapeEscape([x, '-', y]);
    LoneDashKept([x], [y]);
    assert [x] + "-" + [y] == [x, '-', y];
  }
}
