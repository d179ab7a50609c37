/** String helpers shared by the report and the dashboard: Python's `sep.join`,
    `str.split(", ")`, splitting on newlines, and the code-point order that
    both SQLite's BINARY collation and pandas' `groupby` sort use for names. */
module Text {

  /** Python's `sep.join(parts)`. */
  function Join(parts: seq<string>, sep: string): (joined: string)
    ensures |parts| > 0 ==> parts[0] <= joined
    ensures |parts| > 1 ==> parts[0] + sep <= joined
  {
    if |parts| == 0 then ""
    else if |parts| == 1 then parts[0]
    else parts[0] + sep + Join(parts[1..], sep)
  }

  lemma JoinCons(p: string, parts: seq<string>, sep: string)
    requires |parts| > 0
    ensures Join([p] + parts, sep) == p + sep + Join(parts, sep)
  {
    assert ([p] + parts)[1..] == parts;
  }

  lemma Associate<T>(a: seq<T>, b: seq<T>, c: seq<T>)
    ensures a + (b + c) == a + b + c
  {
  }

  /** `str.split(", ")`, scanning left to right; `cur` is the piece being collected. */
  function SplitFrom(s: string, cur: string): (r: seq<string>)
    ensures |r| >= 1
    decreases |s|
  {
    if |s| == 0 then [cur]
    else if |s| >= 2 && s[0] == ',' && s[1] == ' ' then [cur] + SplitFrom(s[2..], "")
    else SplitFrom(s[1..], cur + [s[0]])
  }

  /** Python's `text.split(", ")`: never empty, `"".split(", ") == [""]`. */
  function Split(text: string): (r: seq<string>)
    ensures |r| >= 1
  {
    SplitFrom(text, "")
  }

  lemma JoinSplitSeparatorStep(s: string, cur: string)
    requires |s| >= 2 && s[0] == ',' && s[1] == ' '
    requires Join(SplitFrom(s[2..], ""), ", ") == s[2..]
    ensures Join(SplitFrom(s, cur), ", ") == cur + s
  {
    var rest := SplitFrom(s[2..], "");
    assert SplitFrom(s, cur) == [cur] + rest;
    JoinCons(cur, rest, ", ");
    SeparatorSlice(cur, s);
  }

  lemma SeparatorSlice(cur: string, s: string)
    requires |s| >= 2 && s[0] == ',' && s[1] == ' '
    ensures cur + ", " + s[2..] == cur + s
  {
    assert s == ", " + s[2..];
  }

  lemma JoinSplitPlainStep(s: string, cur: string)
    requires |s| > 0 && !(|s| >= 2 && s[0] == ',' && s[1] == ' ')
    requires Join(SplitFrom(s[1..], cur + [s[0]]), ", ") == cur + [s[0]] + s[1..]
    ensures Join(SplitFrom(s, cur), ", ") == cur + s
  {
    var pieces := SplitFrom(s[1..], cur + [s[0]]);
    assert SplitFrom(s, cur) == pieces;
    ConsSlice(cur, s);
  }

  lemma ConsSlice(cur: string, s: string)
    requires |s| > 0
    ensures cur + [s[0]] + s[1..] == cur + s
  {
    assert s == [s[0]] + s[1..];
  }

  /** Joining the pieces of a split with the same separator gives back the text. */
  lemma {:induction false} JoinSplitFrom(s: string, cur: string)
    ensures Join(SplitFrom(s, cur), ", ") == cur + s
    decreases |s|
  {
    if |s| == 0 {
    } else if |s| >= 2 && s[0] == ',' && s[1] == ' ' {
      JoinSplitFrom(s[2..], "");
      JoinSplitSeparatorStep(s, cur);
    } else {
      JoinSplitFrom(s[1..], cur + [s[0]]);
      JoinSplitPlainStep(s, cur);
    }
  }

  lemma SplitRoundTrip(text: string)
    ensures Join(Split(text), ", ") == text
  {
    JoinSplitFrom(text, "");
  }

  /** A text that starts with the separator splits into an empty first piece and the rest. */
  lemma SplitLeadingSeparator(rest: string)
    ensures Split(", " + rest) == [""] + Split(rest)
  {
    assert (", " + rest)[2..] == rest;
  }

  /** Some position of `p` holds the separator `", "`. */
  predicate HasSeparator(p: string)
  {
    exists j :: 0 <= j && j + 1 < |p| && p[j] == ',' && p[j + 1] == ' '
  }

  /** Collecting one more character keeps the piece free of the separator, as long as it
      does not complete a `", "`. */
  lemma ExtendNoSeparator(cur: string, c: char)
    requires !HasSeparator(cur)
    requires |cur| > 0 && cur[|cur| - 1] == ',' ==> c != ' '
    ensures !HasSeparator(cur + [c])
  {
    var p := cur + [c];
    forall j | 0 <= j && j + 1 < |p| && p[j] == ',' ensures p[j + 1] != ' ' {
      if j + 1 < |cur| {
        assert p[j] == cur[j] && p[j + 1] == cur[j + 1];
      }
    }
  }

  /** The scan cuts at every separator: no piece it returns contains `", "`. */
  lemma {:induction false} SplitFromNoSeparator(s: string, cur: string)
    requires !HasSeparator(cur)
    requires |cur| > 0 && cur[|cur| - 1] == ',' ==> !(|s| > 0 && s[0] == ' ')
    ensures forall i :: 0 <= i < |SplitFrom(s, cur)| ==> !HasSeparator(SplitFrom(s, cur)[i])
    decreases |s|
  {
    if |s| == 0 {
    } else if |s| >= 2 && s[0] == ',' && s[1] == ' ' {
      SplitFromNoSeparator(s[2..], "");
      var rest := SplitFrom(s[2..], "");
      assert SplitFrom(s, cur) == [cur] + rest;
      forall i | 0 < i < |SplitFrom(s, cur)| ensures !HasSeparator(SplitFrom(s, cur)[i]) {
        assert SplitFrom(s, cur)[i] == rest[i - 1];
      }
    } else {
      ExtendNoSeparator(cur, s[0]);
      SplitFromNoSeparator(s[1..], cur + [s[0]]);
    }
  }

  /** No piece of `text.split(", ")` contains the separator, so together with
      `SplitRoundTrip` the pieces are the text cut at each `", "`. */
  lemma SplitNoSeparator(text: string)
    ensures forall i :: 0 <= i < |Split(text)| ==> !HasSeparator(Split(text)[i])
  {
    SplitFromNoSeparator(text, "");
  }

  /** Splitting never introduces a newline into a piece. */
  lemma {:induction false} SplitFromNoNewline(s: string, cur: string)
    requires '\n' !in s && '\n' !in cur
    ensures forall w :: w in SplitFrom(s, cur) ==> '\n' !in w
    decreases |s|
  {
    if |s| == 0 {
    } else if |s| >= 2 && s[0] == ',' && s[1] == ' ' {
      assert forall c :: c in s[2..] ==> c in s;
      SplitFromNoNewline(s[2..], "");
    } else {
      assert forall c :: c in s[1..] ==> c in s;
      assert s[0] in s;
      SplitFromNoNewline(s[1..], cur + [s[0]]);
    }
  }

  /** Python's `s.split("\n")`: the lines of a text, never empty. */
  function Lines(s: string): (r: seq<string>)
    ensures |r| >= 1
  {
    if |s| == 0 then [""]
    else
      var rest := Lines(s[1..]);
      if s[0] == '\n' then [""] + rest else [[s[0]] + rest[0]] + rest[1..]
  }

  function Last<T>(s: seq<T>): (x: T)
    ensures x in s
    requires |s| > 0
  {
    s[|s| - 1]
  }

  /** A text without newlines is one line. */
  lemma {:induction false} LinesSingle(b: string)
    requires '\n' !in b
    ensures Lines(b) == [b]
  {
    if |b| > 0 {
      assert forall c :: c in b[1..] ==> c in b;
      assert b[0] in b;
      LinesSingle(b[1..]);
      assert [b[0]] + b[1..] == b;
    }
  }

  lemma LinesOfAppend(a: string, b: string)
    requires |a| > 0
    ensures Lines(a + b) == (var rest := Lines(a[1..] + b);
      if a[0] == '\n' then [""] + rest else [[a[0]] + rest[0]] + rest[1..])
  {
    assert (a + b)[1..] == a[1..] + b;
    assert (a + b)[0] == a[0];
  }
  lemma LinesAppendAfterBreak(a: string, b: string)
    requires |a| > 0 && a[0] == '\n'
    requires Lines(a[1..] + b) == Lines(a[1..])[..|Lines(a[1..])| - 1] + [Last(Lines(a[1..])) + b]
    ensures Lines(a + b) == Lines(a)[..|Lines(a)| - 1] + [Last(Lines(a)) + b]
  {
    LinesOfAppend(a, b);
    var la' := Lines(a[1..]);
    var la := Lines(a);
    assert la == [""] + la';
    assert la[..|la| - 1] == [""] + la'[..|la'| - 1];
    assert Last(la) == Last(la');
  }
  lemma LinesAppendOneLine(a: string, b: string)
    requires |a| > 0 && a[0] != '\n' && |Lines(a[1..])| == 1
    requires Lines(a[1..] + b) == [Lines(a[1..])[0] + b]
    ensures Lines(a + b) == [Lines(a)[0] + b]
  {
    LinesOfAppend(a, b);
    var l := Lines(a[1..])[0];
    assert Lines(a) == [[a[0]] + l];
    Associate([a[0]], l, b);
  }

  lemma LinesAppendManyLines(a: string, b: string)
    requires |a| > 0 && a[0] != '\n' && |Lines(a[1..])| > 1
    requires Lines(a[1..] + b) == Lines(a[1..])[..|Lines(a[1..])| - 1] + [Last(Lines(a[1..])) + b]
    ensures Lines(a + b) == Lines(a)[..|Lines(a)| - 1] + [Last(Lines(a)) + b]
  {
    LinesOfAppend(a, b);
    var la' := Lines(a[1..]);
    var n := |la'|;
    var r := Lines(a[1..] + b);
    assert r[0] == la'[0];
    assert r[1..] == la'[1..n - 1] + [Last(la') + b];
    var la := Lines(a);
    assert la == [[a[0]] + la'[0]] + la'[1..];
    assert la[..|la| - 1] == [[a[0]] + la'[0]] + la'[1..n - 1];
    assert Last(la) == Last(la');
  }

  /** Appending text without newlines extends the last line only. */
  lemma {:induction false} LinesAppendPlain(a: string, b: string)
    requires '\n' !in b
    ensures Lines(a + b) == Lines(a)[..|Lines(a)| - 1] + [Last(Lines(a)) + b]
  {
    if |a| == 0 {
      assert a + b == b;
      LinesSingle(b);
    } else {
      LinesAppendPlain(a[1..], b);
      if a[0] == '\n' {
        LinesAppendAfterBreak(a, b);
      } else if |Lines(a[1..])| == 1 {
        LinesAppendOneLine(a, b);
      } else {
        LinesAppendManyLines(a, b);
      }
    }
  }

  lemma LinesBreakStep(a: string, b: string)
    requires |a| > 0
    requires Lines(a[1..] + "\n" + b) == Lines(a[1..]) + Lines(b)
    ensures Lines(a + "\n" + b) == Lines(a) + Lines(b)
  {
    LinesOfAppend(a, "\n" + b);
    Associate(a, "\n", b);
    Associate(a[1..], "\n", b);
    var la := Lines(a[1..]);
    var r := la + Lines(b);
    if a[0] == '\n' {
      Associate([""], la, Lines(b));
    } else {
      assert r[0] == la[0];
      assert r[1..] == la[1..] + Lines(b);
      Associate([[a[0]] + la[0]], la[1..], Lines(b));
    }
  }

  /** A newline starts a new line. */
  lemma {:induction false} LinesAppendBreak(a: string, b: string)
    ensures Lines(a + "\n" + b) == Lines(a) + Lines(b)
  {
    if |a| == 0 {
      assert a + "\n" + b == "\n" + b;
      assert ("\n" + b)[1..] == b;
    } else {
      LinesAppendBreak(a[1..], b);
      LinesBreakStep(a, b);
    }
  }

  /** The text with every newline put back as the `", "` separator it replaced. */
  function Unwrap(s: string): (u: string)
    ensures |u| >= |s|
  {
    if |s| == 0 then ""
    else (if s[0] == '\n' then ", " else [s[0]]) + Unwrap(s[1..])
  }

  lemma {:induction false} UnwrapAppend(a: string, b: string)
    ensures Unwrap(a + b) == Unwrap(a) + Unwrap(b)
  {
    if |a| > 0 {
      assert (a + b)[1..] == a[1..] + b;
      assert (a + b)[0] == a[0];
      UnwrapAppend(a[1..], b);
    } else {
      assert a + b == b;
    }
  }

  lemma {:induction false} UnwrapPlain(s: string)
    requires '\n' !in s
    ensures Unwrap(s) == s
  {
    if |s| > 0 {
      assert forall c :: c in s[1..] ==> c in s;
      assert s[0] in s;
      UnwrapPlain(s[1..]);
      assert [s[0]] + s[1..] == s;
    }
  }

  /** Strict lexicographic order by code point (a proper prefix comes first). */
  predicate Less(a: string, b: string)
    decreases |a|
  {
    |b| > 0 && (|a| == 0 || (if a[0] == b[0] then Less(a[1..], b[1..]) else a[0] < b[0]))
  }

  lemma {:induction false} LessIrreflexive(a: string)
    ensures !Less(a, a)
  {
    if |a| > 0 {
      LessIrreflexive(a[1..]);
    }
  }

  lemma {:induction false} LessTransitive(a: string, b: string, c: string)
    requires Less(a, b) && Less(b, c)
    ensures Less(a, c)
    decreases |a|
  {
    if |a| > 0 && a[0] == b[0] && b[0] == c[0] {
      LessTransitive(a[1..], b[1..], c[1..]);
    }
  }

  lemma {:induction false} LessTotal(a: string, b: string)
    ensures a == b || Less(a, b) || Less(b, a)
    decreases |a|
  {
    if |a| > 0 && |b| > 0 && a[0] == b[0] {
      LessTotal(a[1..], b[1..]);
      if a[1..] == b[1..] {
        assert a == [a[0]] + a[1..] && b == [b[0]] + b[1..];
      }
    }
  }

  lemma {:induction false} LessAsymmetric(a: string, b: string)
    requires Less(a, b)
    ensures !Less(b, a)
  {
    if Less(b, a) {
      LessTransitive(a, b, a);
      LessIrreflexive(a);
    }
  }
}
