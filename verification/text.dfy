/** The few Python `str` operations the program relies on (`strip`, `lower`,
    `replace`, `split`, `" ".join`, substring `in`), modelled over ASCII. */
module Text {

  /** Python's ASCII whitespace: the characters `str.split()` and `str.strip()`
      remove when called without arguments (TAB, LF, VT, FF, CR, the four
      information separators 0x1C-0x1F, and SPACE). */
  predicate IsSpace(c: char) {
    c == ' ' || c == '\t' || c == '\n' || c == '\U{000B}' || c == '\U{000C}' || c == '\r'
    || ('\U{001C}' <= c <= '\U{001F}')
  }

  predicate AllSpace(s: string) {
    forall i :: 0 <= i < |s| ==> IsSpace(s[i])
  }

  predicate IsUpper(c: char) {
    'A' <= c <= 'Z'
  }

  /** ASCII lower-casing of one character. */
  function LowerChar(c: char): (d: char)
    ensures !IsUpper(d)
    ensures IsUpper(c) ==> d as int == c as int + 32
    ensures !IsUpper(c) ==> d == c
  {
    if IsUpper(c) then (c as int + 32) as char else c
  }

  /** `s.lower()` */
  function Lower(s: string): (t: string)
    ensures |t| == |s|
    ensures forall i :: 0 <= i < |s| ==> !IsUpper(t[i]) && (IsUpper(s[i]) || t[i] == s[i])
    ensures forall i :: 0 <= i < |s| && IsUpper(s[i]) ==> t[i] as int == s[i] as int + 32
  {
    seq(|s|, i requires 0 <= i < |s| => LowerChar(s[i]))
  }

  /** `s.replace(a, b)` for one-character `a` and `b`. */
  function Replace(s: string, a: char, b: char): (t: string)
    ensures |t| == |s|
    ensures a != b ==> forall i :: 0 <= i < |t| ==> t[i] != a
    ensures forall i :: 0 <= i < |s| && s[i] == a ==> t[i] == b
    ensures forall i :: 0 <= i < |s| && s[i] != a ==> t[i] == s[i]
  {
    seq(|s|, i requires 0 <= i < |s| => if s[i] == a then b else s[i])
  }

  /** Drops leading whitespace. */
  function LStrip(s: string): (t: string)
    ensures |t| <= |s| && t == s[|s| - |t|..]
    ensures AllSpace(s[..|s| - |t|])
    ensures |t| > 0 ==> !IsSpace(t[0])
    decreases |s|
  {
    if |s| > 0 && IsSpace(s[0]) then LStrip(s[1..]) else s
  }

  /** Drops trailing whitespace. */
  function RStrip(s: string): (t: string)
    ensures |t| <= |s| && t == s[..|t|]
    ensures AllSpace(s[|t|..])
    ensures |t| > 0 ==> !IsSpace(t[|t| - 1])
    decreases |s|
  {
    if |s| > 0 && IsSpace(s[|s| - 1]) then RStrip(s[..|s| - 1]) else s
  }

  /** `s.strip()`: the text between the leading and the trailing whitespace. */
  function Strip(s: string): (t: string)
    ensures |t| > 0 ==> !IsSpace(t[0]) && !IsSpace(t[|t| - 1])
  {
    RStrip(LStrip(s))
  }

  /** `Strip` removes exactly the padding around a string that neither starts
      nor ends with whitespace. */
  lemma StripPadded(p: string, m: string, q: string)
    requires AllSpace(p) && AllSpace(q)
    requires |m| > 0 ==> !IsSpace(m[0]) && !IsSpace(m[|m| - 1])
    ensures Strip(p + m + q) == m
  {
    var mq := m + q;
    assert p + m + q == p + mq;
    LStripSpaces(p, mq);
    if |m| == 0 {
      LStripSpaces(q, "");
      assert mq == q + "";
    } else {
      LStripStartsSolid(m, q);
      RStripSpaces(m, q);
    }
  }

  lemma LStripStartsSolid(m: string, q: string)
    requires |m| > 0 && !IsSpace(m[0])
    ensures LStrip(m + q) == m + q
  {
    assert (m + q)[0] == m[0];
  }

  lemma {:induction false} LStripSpaces(p: string, s: string)
    requires AllSpace(p)
    ensures LStrip(p + s) == LStrip(s)
    decreases |p|
  {
    if |p| > 0 {
      assert (p + s)[1..] == p[1..] + s;
      LStripSpaces(p[1..], s);
    } else {
      assert p + s == s;
    }
  }

  lemma {:induction false} RStripSpaces(s: string, q: string)
    requires AllSpace(q)
    requires |s| == 0 || !IsSpace(s[|s| - 1])
    ensures RStrip(s + q) == s
    decreases |q|
  {
    if |q| > 0 {
      assert (s + q)[..|s + q| - 1] == s + q[..|q| - 1];
      RStripSpaces(s, q[..|q| - 1]);
    } else {
      assert s + q == s;
    }
  }

  /** Padding a string with whitespace on either side does not change what
      `strip` returns. */
  lemma StripIgnoresPadding(p: string, s: string, q: string)
    requires AllSpace(p) && AllSpace(q)
    ensures Strip(p + s + q) == Strip(s)
  {
    var lead, trail := StripDecomposes(s);
    var m := Strip(s);
    AllSpaceConcat(p, lead);
    AllSpaceConcat(trail, q);
    Regroup(p, lead, m, trail, q);
    StripPadded(p + lead, m, trail + q);
  }

  /** Every string is its stripped text with whitespace on either side. */
  lemma StripDecomposes(s: string) returns (lead: string, trail: string)
    ensures s == lead + Strip(s) + trail
    ensures AllSpace(lead) && AllSpace(trail)
  {
    var l := LStrip(s);
    lead := LeadingSpace(s);
    trail := TrailingSpace(l);
    Reassociate(s, lead, l, RStrip(l), trail);
  }

  lemma LeadingSpace(s: string) returns (lead: string)
    ensures s == lead + LStrip(s) && AllSpace(lead)
  {
    lead := s[..|s| - |LStrip(s)|];
  }

  lemma TrailingSpace(s: string) returns (trail: string)
    ensures s == RStrip(s) + trail && AllSpace(trail)
  {
    trail := s[|RStrip(s)|..];
  }

  lemma Reassociate(s: string, lead: string, l: string, m: string, trail: string)
    requires s == lead + l && l == m + trail
    ensures s == lead + m + trail
  {
  }

  lemma Regroup(p: string, lead: string, m: string, trail: string, q: string)
    ensures p + (lead + m + trail) + q == (p + lead) + m + (trail + q)
  {
  }

  lemma AllSpaceConcat(a: string, b: string)
    requires AllSpace(a) && AllSpace(b)
    ensures AllSpace(a + b)
  {
  }

  /** A maximal whitespace-free prefix of `s`. */
  function TakeWord(s: string): (w: string)
    ensures |w| <= |s| && w == s[..|w|]
    ensures forall i :: 0 <= i < |w| ==> !IsSpace(w[i])
    ensures |w| == |s| || IsSpace(s[|w|])
    decreases |s|
  {
    if |s| == 0 || IsSpace(s[0]) then "" else [s[0]] + TakeWord(s[1..])
  }

  /** A word as `str.split()` produces it: non-empty, without whitespace. */
  predicate IsWord(w: string) {
    |w| > 0 && forall i :: 0 <= i < |w| ==> !IsSpace(w[i])
  }

  /** `s.split()`: the maximal runs of non-whitespace characters, in order. */
  function Split(s: string): (ws: seq<string>)
    ensures forall k :: 0 <= k < |ws| ==> IsWord(ws[k])
    ensures forall k, j :: 0 <= k < |ws| && 0 <= j < |ws[k]| ==> ws[k][j] in s
    ensures |s| > 0 && !IsSpace(s[0]) ==> |ws| > 0 && ws[0] == TakeWord(s)
    decreases |s|
  {
    if |s| == 0 then []
    else if IsSpace(s[0]) then Split(s[1..])
    else
      var w := TakeWord(s);
      var rest := Split(s[|w|..]);
      assert forall k, j :: 0 <= k < |rest| && 0 <= j < |rest[k]| ==> rest[k][j] in s by {
        forall k, j | 0 <= k < |rest| && 0 <= j < |rest[k]| ensures rest[k][j] in s {
          var c := rest[k][j];
          var i :| 0 <= i < |s[|w|..]| && s[|w|..][i] == c;
          assert s[|w| + i] == c;
        }
      }
      [w] + rest
  }

  /** `" ".join(ws)`: the words in order, one space between neighbours. */
  function Join(ws: seq<string>): (r: string)
    ensures |ws| > 0 ==> ws[0] <= r
    ensures |ws| > 1 ==> |ws[0]| < |r| && r[|ws[0]|] == ' '
  {
    if |ws| == 0 then "" else if |ws| == 1 then ws[0] else ws[0] + " " + Join(ws[1..])
  }

  /** A whitespace-free stretch followed by whitespace, or by nothing, is read
      whole by `TakeWord`. */
  lemma {:induction false} TakeWordOfWord(w: string, t: string)
    requires forall i :: 0 <= i < |w| ==> !IsSpace(w[i])
    requires |t| == 0 || IsSpace(t[0])
    ensures TakeWord(w + t) == w
    decreases |w|
  {
    if |w| == 0 {
      assert w + t == t;
    } else {
      assert (w + t)[0] == w[0];
      assert (w + t)[1..] == w[1..] + t;
      TakeWordOfWord(w[1..], t);
    }
  }

  /** Appending text after whitespace does not change the first word. */
  lemma TakeWordPrefix(a: string, b: string)
    requires |TakeWord(a)| < |a| || |b| == 0 || IsSpace(b[0])
    ensures TakeWord(a + b) == TakeWord(a)
  {
    var w := TakeWord(a);
    if |w| < |a| {
      TakeWordBeforeSpace(a, w, b);
    } else {
      assert a == w;
      TakeWordOfWord(w, b);
    }
  }

  lemma TakeWordBeforeSpace(a: string, w: string, b: string)
    requires w == TakeWord(a) && |w| < |a|
    ensures TakeWord(a + b) == w
  {
    var t := a[|w|..] + b;
    assert a + b == w + t by {
      assert a == w + a[|w|..];
    }
    assert t[0] == a[|w|];
    TakeWordOfWord(w, t);
  }

  /** Leading whitespace does not change the words. */
  lemma {:induction false} SplitSkipsSpace(p: string, s: string)
    requires AllSpace(p)
    ensures Split(p + s) == Split(s)
    decreases |p|
  {
    if |p| > 0 {
      assert (p + s)[0] == p[0];
      assert (p + s)[1..] == p[1..] + s;
      SplitSkipsSpace(p[1..], s);
    } else {
      assert p + s == s;
    }
  }

  /** Trailing whitespace does not change the words. */
  lemma {:induction false} SplitDropsTrailingSpace(s: string, q: string)
    requires AllSpace(q)
    ensures Split(s + q) == Split(s)
    decreases |s|
  {
    if |s| == 0 {
      assert s + q == q + s;
      SplitSkipsSpace(q, s);
    } else if IsSpace(s[0]) {
      assert (s + q)[0] == s[0];
      assert (s + q)[1..] == s[1..] + q;
      SplitDropsTrailingSpace(s[1..], q);
    } else {
      var w := TakeWord(s);
      TakeWordPrefix(s, q);
      assert (s + q)[0] == s[0];
      assert (s + q)[|w|..] == s[|w|..] + q;
      SplitDropsTrailingSpace(s[|w|..], q);
    }
  }

  /** A single word splits into itself. */
  lemma SplitOfWord(w: string)
    requires IsWord(w)
    ensures Split(w) == [w]
  {
    TakeWordOfWord(w, "");
    assert w + "" == w;
    assert w[|w|..] == "";
  }

  /** A word, then whitespace, then anything: the word comes first and the
      rest splits on its own. */
  lemma SplitWordThenSpace(w: string, q: string, s: string)
    requires IsWord(w) && |q| > 0 && AllSpace(q)
    ensures Split(w + q + s) == [w] + Split(s)
  {
    var t := q + s;
    assert w + q + s == w + t;
    assert t[0] == q[0];
    TakeWordOfWord(w, t);
    assert (w + t)[0] == w[0];
    assert (w + t)[|w|..] == t;
    SplitSkipsSpace(q, s);
  }

  /** Splitting words joined with single spaces gives the words back. */
  lemma {:induction false} SplitJoin(ws: seq<string>)
    requires forall k :: 0 <= k < |ws| ==> IsWord(ws[k])
    ensures Split(Join(ws)) == ws
  {
    if |ws| == 1 {
      SplitOfWord(ws[0]);
    } else if |ws| > 1 {
      SplitJoin(ws[1..]);
      SplitWordThenSpace(ws[0], " ", Join(ws[1..]));
      assert ws == [ws[0]] + ws[1..];
    }
  }

  /** `lower()` works character by character. */
  lemma LowerConcat(a: string, b: string)
    ensures Lower(a + b) == Lower(a) + Lower(b)
  {
    assert forall i :: 0 <= i < |a + b| ==> Lower(a + b)[i] == (Lower(a) + Lower(b))[i];
  }

  /** `replace` of one character works character by character. */
  lemma ReplaceConcat(a: string, b: string, x: char, y: char)
    ensures Replace(a + b, x, y) == Replace(a, x, y) + Replace(b, x, y)
  {
    assert forall i :: 0 <= i < |a + b| ==> Replace(a + b, x, y)[i] == (Replace(a, x, y) + Replace(b, x, y))[i];
  }

  /** Python's `p in s` for strings: `p` occurs in `s` as a contiguous piece. */
  predicate Contains(s: string, p: string)
    decreases |s|
  {
    p <= s || (|s| > 0 && Contains(s[1..], p))
  }

  /** `p` occurs in `s` starting at position `i`. */
  predicate At(s: string, p: string, i: int) {
    0 <= i && i + |p| <= |s| && s[i..i + |p|] == p
  }

  /** `Contains` holds exactly when `p` occurs somewhere in `s`. */
  lemma {:induction false} ContainsIffOccurs(s: string, p: string)
    ensures Contains(s, p) <==> exists i :: At(s, p, i)
    decreases |s|
  {
    if p <= s {
      assert At(s, p, 0);
    } else if |s| > 0 {
      ContainsIffOccurs(s[1..], p);
      if Contains(s[1..], p) {
        var i :| At(s[1..], p, i);
        assert s[1..][i..i + |p|] == s[i + 1..i + 1 + |p|];
        assert At(s, p, i + 1);
      }
      if exists i :: At(s, p, i) {
        var i :| At(s, p, i);
        if i == 0 {
          assert false;
        }
        assert s[1..][i - 1..i - 1 + |p|] == s[i..i + |p|];
        assert At(s[1..], p, i - 1);
      }
    } else {
      if exists i :: At(s, p, i) {
        assert false;
      }
    }
  }
}
