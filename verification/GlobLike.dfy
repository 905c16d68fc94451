/** File search: a glob is compiled to an escaped SQL LIKE pattern. */
module GlobLike {
  import opened Prelude

  // ---------- The compiler ----------

  /** Replaces every occurrence of one character. */
  function Replace(s: string, c: char, with: string): string
  {
    if s == [] then [] else (if s[0] == c then with else [s[0]]) + Replace(s[1..], c, with)
  }

  function GlobToLike(glob: string): string
  {
    var p1 := Replace(glob, '\\', "\\\\");
    var p2 := Replace(p1, '%', "\\%");
    var p3 := Replace(p2, '_', "\\_");
    var p4 := Replace(p3, '*', "%");
    Replace(p4, '?', "_")
  }

  // ---------- What patterns mean ----------

  /** Shell matching with only * and ? special. */
  predicate Glob(g: string, s: string)
    decreases |g| + |s|
  {
    if g == [] then s == []
    else if g[0] == '*' then Glob(g[1..], s) || (s != [] && Glob(g, s[1..]))
    else if g[0] == '?' then s != [] && Glob(g[1..], s[1..])
    else s != [] && s[0] == g[0] && Glob(g[1..], s[1..])
  }

  /** SQL LIKE with ESCAPE '\'; a pattern that ends in the escape character matches nothing. */
  predicate Like(p: string, s: string)
    decreases |p| + |s|
  {
    if p == [] then s == []
    else if p[0] == '\\' then |p| >= 2 && s != [] && s[0] == p[1] && Like(p[2..], s[1..])
    else if p[0] == '%' then Like(p[1..], s) || (s != [] && Like(p, s[1..]))
    else if p[0] == '_' then s != [] && Like(p[1..], s[1..])
    else s != [] && s[0] == p[0] && Like(p[1..], s[1..])
  }

  /** Every escape character is followed by a character that needs escaping. */
  predicate WellEscaped(p: string)
  {
    if p == [] then true
    else if p[0] == '\\' then |p| >= 2 && (p[1] == '\\' || p[1] == '%' || p[1] == '_') && WellEscaped(p[2..])
    else WellEscaped(p[1..])
  }

  /** The glob a well-escaped pattern stands for. */
  function LikeToGlob(p: string): string
  {
    if p == [] then []
    else if p[0] == '\\' && |p| >= 2 then [p[1]] + LikeToGlob(p[2..])
    else (if p[0] == '%' then "*" else if p[0] == '_' then "?" else [p[0]]) + LikeToGlob(p[1..])
  }

  // ---------- The chain of replacements is one map over characters ----------

  function Translate(c: char): string
  {
    if c == '\\' then "\\\\" else if c == '%' then "\\%" else if c == '_' then "\\_"
    else if c == '*' then "%" else if c == '?' then "_" else [c]
  }

  function TranslateAll(g: string): string
  {
    if g == [] then [] else Translate(g[0]) + TranslateAll(g[1..])
  }

  lemma {:induction false} ReplaceConcat(a: string, b: string, c: char, with: string)
    ensures Replace(a + b, c, with) == Replace(a, c, with) + Replace(b, c, with)
  {
    if a == [] {
      assert a + b == b;
    } else {
      ReplaceConcat(a[1..], b, c, with);
      assert (a + b)[1..] == a[1..] + b;
    }
  }

  lemma ReplaceOne(x: char, c: char, with: string)
    ensures Replace([x], c, with) == if x == c then with else [x]
  {
  }

  lemma ReplaceTwo(x: char, y: char, c: char, with: string)
    ensures Replace([x, y], c, with) == (if x == c then with else [x]) + (if y == c then with else [y])
  {
    assert [x, y] == [x] + [y];
    ReplaceConcat([x], [y], c, with);
    ReplaceOne(x, c, with);
    ReplaceOne(y, c, with);
  }

  lemma GlobToLikeConcat(a: string, b: string)
    ensures GlobToLike(a + b) == GlobToLike(a) + GlobToLike(b)
  {
    var a1, b1 := Replace(a, '\\', "\\\\"), Replace(b, '\\', "\\\\");
    var a2, b2 := Replace(a1, '%', "\\%"), Replace(b1, '%', "\\%");
    var a3, b3 := Replace(a2, '_', "\\_"), Replace(b2, '_', "\\_");
    ReplaceConcat(a, b, '\\', "\\\\");
    ReplaceConcat(a1, b1, '%', "\\%");
    ReplaceConcat(a2, b2, '_', "\\_");
    ReplaceConcat(a3, b3, '*', "%");
    ReplaceConcat(Replace(a3, '*', "%"), Replace(b3, '*', "%"), '?', "_");
  }

  lemma GlobToLikeOne(c: char)
    ensures GlobToLike([c]) == Translate(c)
  {
    ReplaceOne(c, '\\', "\\\\");
    ReplaceOne(c, '%', "\\%");
    ReplaceOne(c, '_', "\\_");
    ReplaceOne(c, '*', "%");
    ReplaceOne(c, '?', "_");
    if c == '\\' {
      EscapedPairUntouched('\\', '%', "\\%");
      EscapedPairUntouched('\\', '_', "\\_");
      EscapedPairUntouched('\\', '*', "%");
      EscapedPairUntouched('\\', '?', "_");
    } else if c == '%' {
      EscapedPairUntouched('%', '_', "\\_");
      EscapedPairUntouched('%', '*', "%");
      EscapedPairUntouched('%', '?', "_");
    } else if c == '_' {
      EscapedPairUntouched('_', '*', "%");
      EscapedPairUntouched('_', '?', "_");
    } else if c == '*' {
      ReplaceOne('%', '?', "_");
    }
  }

  lemma EscapedPairUntouched(y: char, c: char, with: string)
    requires c != '\\' && c != y
    ensures Replace(['\\', y], c, with) == ['\\', y]
  {
    ReplaceTwo('\\', y, c, with);
  }

  /** The five chained replacements equal one map over the characters of the glob. */
  lemma {:induction false} GlobToLikeIsPointwise(g: string)
    ensures GlobToLike(g) == TranslateAll(g)
  {
    if g != [] {
      assert g == [g[0]] + g[1..];
      GlobToLikeConcat([g[0]], g[1..]);
      GlobToLikeOne(g[0]);
      GlobToLikeIsPointwise(g[1..]);
    }
  }

  // ---------- Meaning is preserved ----------

  lemma {:induction false} LikeSkipsEscape(c: char, p: string, s: string)
    ensures Like(['\\', c] + p, s) <==> s != [] && s[0] == c && Like(p, s[1..])
  {
  }

  lemma {:induction false} TranslatedMatchesSame(g: string, s: string)
    ensures Like(TranslateAll(g), s) <==> Glob(g, s)
    decreases |g| + |s|
  {
    if g != [] {
      var c, rest, p := g[0], TranslateAll(g[1..]), TranslateAll(g);
      if s != [] { TranslatedMatchesSame(g[1..], s[1..]); }
      if c == '\\' || c == '%' || c == '_' {
        LikeSkipsEscape(c, rest, s);
      } else {
        assert p[1..] == rest;
        if c == '*' {
          TranslatedMatchesSame(g[1..], s);
          if s != [] { TranslatedMatchesSame(g, s[1..]); }
        }
      }
    }
  }

  /** For every glob and every file name, LIKE on the compiled pattern is glob matching. */
  lemma LikeOnCompiledPatternIsGlob(g: string, s: string)
    ensures Like(GlobToLike(g), s) <==> Glob(g, s)
  {
    GlobToLikeIsPointwise(g);
    TranslatedMatchesSame(g, s);
  }

  lemma {:induction false} TranslatedDecodes(g: string)
    ensures WellEscaped(TranslateAll(g)) && LikeToGlob(TranslateAll(g)) == g
  {
    if g != [] {
      TranslatedDecodes(g[1..]);
      var p, rest := TranslateAll(g), TranslateAll(g[1..]);
      if g[0] == '\\' || g[0] == '%' || g[0] == '_' {
        assert p[2..] == rest;
      } else {
        assert p[1..] == rest;
      }
    }
  }

  /** Compiled patterns are well escaped and decode to the glob they came from. */
  lemma CompiledPatternDecodes(g: string)
    ensures WellEscaped(GlobToLike(g)) && LikeToGlob(GlobToLike(g)) == g
  {
    GlobToLikeIsPointwise(g);
    TranslatedDecodes(g);
  }

  lemma {:induction false} StarMatchesAll(s: string)
    ensures Glob("*", s)
  {
    if s != [] { StarMatchesAll(s[1..]); }
  }

  // ---------- Case-insensitive search ----------

  lemma LowerConcat(a: string, b: string)
    ensures Lower(a + b) == Lower(a) + Lower(b)
  {
  }

  /** Lowering the compiled pattern is compiling the lowered glob: no wildcard or escape appears or disappears. */
  lemma {:induction false} LowerCommutesWithCompile(g: string)
    ensures Lower(TranslateAll(g)) == TranslateAll(Lower(g))
  {
    if g != [] {
      LowerConcat(Translate(g[0]), TranslateAll(g[1..]));
      LowerCommutesWithCompile(g[1..]);
      assert Lower(Translate(g[0])) == Translate(LowerChar(g[0]));
    }
  }

  datatype File = File(id: string, userId: string, filename: string)

  /** The WHERE clause of search_files: no filter for an absent or empty user, none when the pattern is a lone %. */
  predicate SearchKeeps(f: File, userId: Option<string>, filename: string)
  {
    var pattern := GlobToLike(filename);
    && (userId.None? || userId.value == "" || f.userId == userId.value)
    && (pattern == "%" || Like(Lower(pattern), Lower(f.filename)))
  }

  /** A search keeps exactly the user's files whose name matches the glob, upper and lower case alike. */
  lemma SearchKeepsExactlyTheMatches(f: File, userId: Option<string>, filename: string)
    ensures SearchKeeps(f, userId, filename)
            <==> && (userId.None? || userId.value == "" || f.userId == userId.value)
                 && Glob(Lower(filename), Lower(f.filename))
  {
    var pattern := GlobToLike(filename);
    GlobToLikeIsPointwise(filename);
    LowerCommutesWithCompile(filename);
    TranslatedMatchesSame(Lower(filename), Lower(f.filename));
    if pattern == "%" {
      CompiledPatternDecodes(filename);
      assert filename == LikeToGlob("%") == "*" + LikeToGlob([]);
      assert Lower("*") == "*";
      StarMatchesAll(Lower(f.filename));
    }
  }
}
