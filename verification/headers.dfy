/** Locating the GPA column: `normalize_header`, `POSSIBLE_GPA_HEADERS` and
    `find_gpa_column` (cvs_gpa.py lines 17-45). */
module Headers {
  import opened Wrappers
  import opened Text

  /** The recognised header spellings, exactly as the program lists them. */
  const PossibleGpaHeaders: set<string> :=
    {"gpa", "grade_point_average", "gradepointaverage", "grade point average", "grade-point-average"}

  /** The entries of `PossibleGpaHeaders` that a normalized header can equal. */
  const EffectiveGpaHeaders: set<string> := {"gpa", "gradepointaverage", "grade point average"}

  /** Lower-case, with `-` and `_` turned into spaces (`lower()` then the two
      `replace` calls). */
  function Fold(s: string): (f: string)
    ensures |f| == |s|
    ensures forall i :: 0 <= i < |s| ==> !IsUpper(f[i]) && f[i] != '-' && f[i] != '_'
    ensures forall i :: 0 <= i < |s| ==> (IsSpace(f[i]) <==> IsSpace(s[i]) || s[i] == '-' || s[i] == '_')
    ensures forall i :: 0 <= i < |s| && (s[i] == '-' || s[i] == '_') ==> f[i] == ' '
    ensures forall i :: 0 <= i < |s| && IsUpper(s[i]) ==> f[i] as int == s[i] as int + 32
    ensures forall i :: 0 <= i < |s| && !IsUpper(s[i]) && s[i] != '-' && s[i] != '_' ==> f[i] == s[i]
  {
    Replace(Replace(Lower(s), '-', ' '), '_', ' ')
  }

  /** `normalize_header`: strip, fold, and re-join the whitespace-separated
      words with single spaces. */
  function Normalize(s: string): (n: string)
    ensures IsNormal(n)
  {
    var ws := Split(Fold(Strip(s)));
    FoldedWords(Strip(s));
    JoinNormal(ws);
    Join(ws)
  }

  /** A character that may appear inside a word of a normalized header. */
  predicate WordChar(c: char) {
    !IsSpace(c) && c != '-' && c != '_' && !IsUpper(c)
  }

  /** The shape of a normalized header: word characters separated by single
      spaces, no space at either end. */
  predicate IsNormal(x: string) {
    && (forall i :: 0 <= i < |x| ==> x[i] == ' ' || WordChar(x[i]))
    && (|x| > 0 ==> x[0] != ' ' && x[|x| - 1] != ' ')
    && (forall i, j :: 0 <= i < |x| && 0 <= j < |x| && j == i + 1 ==> x[i] != ' ' || x[j] != ' ')
  }

  predicate AllWordChars(w: string) {
    forall i :: 0 <= i < |w| ==> WordChar(w[i])
  }

  /** After folding, every word `split` yields consists of word characters. */
  lemma FoldedWords(s: string)
    ensures forall k :: 0 <= k < |Split(Fold(s))| ==> |Split(Fold(s))[k]| > 0 && AllWordChars(Split(Fold(s))[k])
  {
    var f := Fold(s);
    var ws := Split(f);
    forall k | 0 <= k < |ws| ensures |ws[k]| > 0 && AllWordChars(ws[k]) {
      assert IsWord(ws[k]);
      forall j | 0 <= j < |ws[k]| ensures WordChar(ws[k][j]) {
        var c := ws[k][j];
        assert c in f;
        var i :| 0 <= i < |f| && f[i] == c;
        assert !IsSpace(c);
      }
    }
  }

  /** Joining non-empty words of word characters gives a normalized string. */
  lemma {:induction false} JoinNormal(ws: seq<string>)
    requires forall k :: 0 <= k < |ws| ==> |ws[k]| > 0 && AllWordChars(ws[k])
    ensures IsNormal(Join(ws))
    ensures |ws| > 0 ==> |Join(ws)| > 0 && Join(ws)[0] == ws[0][0]
  {
    if |ws| == 1 {
      assert Join(ws) == ws[0];
    } else if |ws| > 1 {
      var w := ws[0];
      var rest := Join(ws[1..]);
      JoinNormal(ws[1..]);
      var x := w + " " + rest;
      assert Join(ws) == x;
      assert x[0] == w[0];
      assert x[|x| - 1] == rest[|rest| - 1];
      forall i | 0 <= i < |x| ensures x[i] == ' ' || WordChar(x[i]) {
        if i < |w| {
          assert x[i] == w[i];
        } else if i > |w| {
          assert x[i] == rest[i - |w| - 1];
        }
      }
      forall i, j | 0 <= i < |x| && 0 <= j < |x| && j == i + 1 ensures x[i] != ' ' || x[j] != ' ' {
        if i < |w| {
          assert x[i] == w[i];
        } else if i == |w| {
          assert x[j] == rest[0];
        } else {
          assert x[i] == rest[i - |w| - 1] && x[j] == rest[j - |w| - 1];
        }
      }
    }
  }

  /** A normalized string is rebuilt exactly by splitting and re-joining it. */
  lemma {:induction false} SplitJoinNormal(x: string)
    requires IsNormal(x)
    ensures Join(Split(x)) == x
    decreases |x|
  {
    if |x| > 0 {
      var w := TakeWord(x);
      FirstWordOfNormal(x);
      if |w| == |x| {
        assert w == x;
        SplitOfWord(x);
      } else {
        NormalTail(x, |w| + 1);
        var rest := x[|w| + 1..];
        SplitJoinNormal(rest);
        SplitJoinStep(x, w, rest);
      }
    }
  }

  lemma FirstWordOfNormal(x: string)
    requires IsNormal(x) && |x| > 0
    ensures IsWord(TakeWord(x))
  {
    assert !IsSpace(x[0]);
  }

  /** Splitting at the first space of a normalized string and re-joining. */
  lemma SplitJoinStep(x: string, w: string, rest: string)
    requires IsNormal(x) && w == TakeWord(x) && IsWord(w) && |w| + 1 < |x|
    requires rest == x[|w| + 1..] && IsNormal(rest) && Join(Split(rest)) == rest
    ensures Join(Split(x)) == x
  {
    Reassemble(x, w, rest);
    SplitWordThenSpace(w, " ", rest);
    assert |Split(rest)| > 0;
    JoinCons(w, Split(rest));
  }

  lemma JoinCons(w: string, tail: seq<string>)
    requires |tail| > 0
    ensures Join([w] + tail) == w + " " + Join(tail)
  {
    assert ([w] + tail)[1..] == tail;
  }

  lemma Reassemble(x: string, w: string, rest: string)
    requires IsNormal(x) && w == TakeWord(x) && |w| + 1 < |x| && rest == x[|w| + 1..]
    ensures w + " " + rest == x
  {
    var k := |w|;
    assert x[k] == ' ';
    assert x == x[..k] + [x[k]] + rest;
  }

  /** The text after a space of a normalized string is normalized. */
  lemma NormalTail(x: string, k: nat)
    requires IsNormal(x) && 0 < k <= |x| && IsSpace(x[k - 1])
    ensures k < |x| && IsNormal(x[k..])
  {
    var y := x[k..];
    assert y[0] == x[k];
    assert y[|y| - 1] == x[|x| - 1];
    forall i, j | 0 <= i < |y| && 0 <= j < |y| && j == i + 1 ensures y[i] != ' ' || y[j] != ' ' {
      assert y[i] == x[i + k] && y[j] == x[j + k];
    }
  }

  /** Folding leaves a normalized string unchanged. */
  lemma FoldNormal(x: string)
    requires IsNormal(x)
    ensures Fold(x) == x
  {
  }

  /** The fixed points of `Normalize` are exactly the normalized strings. */
  lemma NormalizeFixpoint(x: string)
    ensures Normalize(x) == x <==> IsNormal(x)
  {
    if IsNormal(x) {
      StripPadded("", x, "");
      assert "" + x + "" == x;
      FoldNormal(x);
      SplitJoinNormal(x);
    }
  }

  /** `normalize_header` is idempotent. */
  lemma NormalizeIdempotent(s: string)
    ensures Normalize(Normalize(s)) == Normalize(s)
  {
    NormalizeFixpoint(Normalize(s));
  }

  /** Folding works character by character. */
  lemma FoldConcat(a: string, b: string)
    ensures Fold(a + b) == Fold(a) + Fold(b)
  {
    LowerConcat(a, b);
    ReplaceConcat(Lower(a), Lower(b), '-', ' ');
    ReplaceConcat(Replace(Lower(a), '-', ' '), Replace(Lower(b), '-', ' '), '_', ' ');
  }

  /** Folding leaves whitespace alone. */
  lemma FoldKeepsSpace(p: string)
    requires AllSpace(p)
    ensures Fold(p) == p
  {
    assert forall i :: 0 <= i < |p| ==> Fold(p)[i] == p[i];
  }

  /** A normalized header has exactly the words of the folded header: every
      run of whitespace inside it collapses to one space and the runs at
      either end vanish. */
  lemma NormalizeKeepsWords(s: string)
    ensures Split(Normalize(s)) == Split(Fold(s))
    ensures Normalize(s) == Join(Split(Fold(s)))
  {
    FoldedWordsIgnorePadding(s);
    SplitJoin(Split(Fold(Strip(s))));
  }

  /** The surrounding whitespace `strip` removes holds no words. */
  lemma FoldedWordsIgnorePadding(s: string)
    ensures Split(Fold(s)) == Split(Fold(Strip(s)))
  {
    var lead, trail := StripDecomposes(s);
    FoldPadded(lead, Strip(s), trail);
    SplitIgnoresPadding(lead, Fold(Strip(s)), trail);
  }

  lemma FoldPadded(p: string, m: string, q: string)
    requires AllSpace(p) && AllSpace(q)
    ensures Fold(p + m + q) == p + (Fold(m) + q)
  {
    FoldConcat(p + m, q);
    FoldConcat(p, m);
    FoldKeepsSpace(p);
    FoldKeepsSpace(q);
  }

  lemma SplitIgnoresPadding(p: string, x: string, q: string)
    requires AllSpace(p) && AllSpace(q)
    ensures Split(p + (x + q)) == Split(x)
  {
    SplitSkipsSpace(p, x + q);
    SplitDropsTrailingSpace(x, q);
  }

  /** First pass of `find_gpa_column`: the normalized header is listed. */
  predicate IsExactMatch(h: string) {
    Normalize(h) in PossibleGpaHeaders
  }

  /** Second pass of `find_gpa_column`: the normalized header contains "gpa". */
  predicate IsLooseMatch(h: string) {
    Contains(Normalize(h), "gpa")
  }

  /** The second pass accepts a header exactly when "gpa" occurs somewhere
      in its normalized form. */
  lemma LooseMatchIffOccurs(h: string)
    ensures IsLooseMatch(h) <==> exists i :: At(Normalize(h), "gpa", i)
  {
    ContainsIffOccurs(Normalize(h), "gpa");
  }

  /** The position of the first element satisfying `p`, if any. */
  function FirstIndex<T>(xs: seq<T>, p: T -> bool): (r: Option<nat>)
    ensures r.Some? ==> r.value < |xs| && p(xs[r.value])
    ensures r.Some? ==> forall j :: 0 <= j < r.value ==> !p(xs[j])
    ensures r.None? <==> forall j :: 0 <= j < |xs| ==> !p(xs[j])
  {
    if |xs| == 0 then None
    else if p(xs[0]) then Some(0)
    else match FirstIndex(xs[1..], p)
      case None => None
      case Some(k) => Some(k + 1)
  }

  /** `find_gpa_column`: the first header whose normalized form is a
      recognised spelling; failing that, the first whose normalized form
      contains "gpa"; otherwise none. */
  function FindGpaColumn(fieldnames: seq<string>): (r: Option<string>)
    ensures r.Some? ==> r.value in fieldnames
    ensures r.Some? ==> IsExactMatch(r.value) || IsLooseMatch(r.value)
    ensures r.None? <==>
      forall i :: 0 <= i < |fieldnames| ==> !IsExactMatch(fieldnames[i]) && !IsLooseMatch(fieldnames[i])
  {
    match FirstIndex(fieldnames, IsExactMatch)
    case Some(i) => Some(fieldnames[i])
    case None =>
      match FirstIndex(fieldnames, IsLooseMatch)
      case Some(i) => Some(fieldnames[i])
      case None => None
  }

  /** `FirstIndex` finds exactly the earliest element satisfying `p`. */
  lemma FirstIndexIsEarliest<T>(xs: seq<T>, p: T -> bool, i: nat)
    requires i < |xs| && p(xs[i])
    requires forall j :: 0 <= j < i ==> !p(xs[j])
    ensures FirstIndex(xs, p) == Some(i)
  {
  }

  /** Priority: the first header that normalizes to a recognised spelling is
      chosen, even when a "gpa"-containing header comes before it. */
  lemma FindPrefersExactMatch(fieldnames: seq<string>, i: nat)
    requires i < |fieldnames| && IsExactMatch(fieldnames[i])
    requires forall j :: 0 <= j < i ==> !IsExactMatch(fieldnames[j])
    ensures FindGpaColumn(fieldnames) == Some(fieldnames[i])
  {
    FirstIndexIsEarliest(fieldnames, IsExactMatch, i);
  }

  /** Fallback: with no recognised spelling anywhere, the first header whose
      normalized form contains "gpa" is chosen. */
  lemma FindFallsBackToSubstring(fieldnames: seq<string>, i: nat)
    requires forall j :: 0 <= j < |fieldnames| ==> !IsExactMatch(fieldnames[j])
    requires i < |fieldnames| && IsLooseMatch(fieldnames[i])
    requires forall j :: 0 <= j < i ==> !IsLooseMatch(fieldnames[j])
    ensures FindGpaColumn(fieldnames) == Some(fieldnames[i])
  {
    assert FirstIndex(fieldnames, IsExactMatch).None?;
    FirstIndexIsEarliest(fieldnames, IsLooseMatch, i);
  }

  /** Two entries of `PossibleGpaHeaders` can never be matched: a normalized
      header has no `_` or `-`, so the first pass accepts exactly the
      normalized headers in `EffectiveGpaHeaders`. */
  lemma ExactMatchUsesThreeSpellings(h: string)
    ensures IsExactMatch(h) <==> Normalize(h) in EffectiveGpaHeaders
  {
    NotNormal("grade_point_average", 5);
    NotNormal("grade-point-average", 5);
  }

  /** A string holding `_` or `-` is not normalized. */
  lemma NotNormal(x: string, i: nat)
    requires i < |x| && (x[i] == '_' || x[i] == '-')
    ensures !IsNormal(x)
  {
  }

  /** A string without surrounding whitespace whose folded form is already
      normalized normalizes to that folded form. */
  lemma NormalizeOfFolded(s: string, t: string)
    requires |s| > 0 ==> !IsSpace(s[0]) && !IsSpace(s[|s| - 1])
    requires Fold(s) == t && IsNormal(t)
    ensures Normalize(s) == t
  {
    StripPadded("", s, "");
    assert "" + s + "" == s;
    SplitJoinNormal(t);
  }

  /** Every spelling the program lists, and the upper-case "GPA", is accepted
      by the first pass: headers written with `_` or `-` match through the
      entry "grade point average". */
  lemma ListedSpellingsMatch()
    ensures IsExactMatch("gpa") && IsExactMatch("GPA")
    ensures IsExactMatch("gradepointaverage")
    ensures IsExactMatch("grade point average")
    ensures IsExactMatch("grade_point_average")
    ensures IsExactMatch("grade-point-average")
  {
    GpaSpelledOut();
    NormalizeOfFolded("gpa", "gpa");
    NormalizeOfFolded("GPA", "gpa");
    NormalizeOfFolded("gradepointaverage", "gradepointaverage");
    NormalizeOfFolded("grade point average", "grade point average");
    NormalizeOfFolded("grade_point_average", "grade point average");
    NormalizeOfFolded("grade-point-average", "grade point average");
  }

  /** The facts about the listed spellings, each literal in a lemma of its
      own: evaluating `Fold` and `IsNormal` on one literal is cheap, while
      several literals in one proof make the proof obligation too large. */
  lemma GpaSpelledOut()
    ensures IsNormal("gpa") && IsNormal("gradepointaverage") && IsNormal("grade point average")
    ensures Fold("GPA") == "gpa"
    ensures Fold("gradepointaverage") == "gradepointaverage"
    ensures Fold("grade point average") == "grade point average"
    ensures Fold("grade_point_average") == "grade point average"
    ensures Fold("grade-point-average") == "grade point average"
  {
    ShortFormsNormal();
    LongFormNormal();
    UnderscoreFolds();
    HyphenFolds();
    SpaceFolds();
  }

  lemma ShortFormsNormal()
    ensures IsNormal("gpa") && IsNormal("gradepointaverage")
    ensures Fold("GPA") == "gpa" && Fold("gradepointaverage") == "gradepointaverage"
  {
    GpaNormal();
    LongWordNormal();
    UpperGpaFolds();
    LongWordFolds();
  }

  lemma GpaNormal()
    ensures IsNormal("gpa")
  {
  }

  lemma LongWordNormal()
    ensures IsNormal("gradepointaverage")
  {
  }

  lemma UpperGpaFolds()
    ensures Fold("GPA") == "gpa"
  {
  }

  lemma LongWordFolds()
    ensures Fold("gradepointaverage") == "gradepointaverage"
  {
  }

  lemma LongFormNormal()
    ensures IsNormal("grade point average")
  {
  }

  lemma SpaceFolds()
    ensures Fold("grade point average") == "grade point average"
  {
  }

  lemma UnderscoreFolds()
    ensures Fold("grade_point_average") == "grade point average"
  {
  }

  lemma HyphenFolds()
    ensures Fold("grade-point-average") == "grade point average"
  {
  }
}
