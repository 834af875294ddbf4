/**
 * Python's whitespace handling on `str`, as the speech filter and the
 * Whisper adapter use it: the `isspace` character class (which is also what
 * the regular expression `\s` matches on `str` patterns), `str.split()` with
 * no separator, `' '.join(...)` and `str.strip()`.
 */
module Text {

  /** `c.isspace()`: the code points Python classifies as whitespace. */
  predicate IsSpace(c: char) {
    var n := c as int;
    || (9 <= n <= 13)
    || (0x1C <= n <= 0x20)
    || n == 0x85 || n == 0xA0 || n == 0x1680
    || (0x2000 <= n <= 0x200A)
    || n == 0x2028 || n == 0x2029 || n == 0x202F || n == 0x205F || n == 0x3000
  }

  predicate AllSpace(s: string) {
    forall i :: 0 <= i < |s| ==> IsSpace(s[i])
  }

  /** A word as `str.split()` yields it: non-empty, free of whitespace. */
  predicate IsWord(w: string) {
    |w| > 0 && forall i :: 0 <= i < |w| ==> !IsSpace(w[i])
  }

  /** Every character of `t` is a plain space or already occurs in `s`:
      the text was only cut up and re-spaced, never given new characters. */
  predicate Drawn(t: string, s: string) {
    forall c :: c in t ==> c == ' ' || c in s
  }

  /** `t` is `s` with some non-empty runs of characters each replaced by
      one ' ', everything else kept in order. `inCut` says the last
      character of `t` consumed so far is such a ' ', so the run it stands
      for may still swallow the next characters of `s`. */
  predicate Redaction(t: string, s: string, inCut: bool)
    decreases |s|
  {
    if s == [] then t == []
    else
      || (inCut && Redaction(t, s[1..], true))
      || (t != [] && t[0] == s[0] && Redaction(t[1..], s[1..], false))
      || (t != [] && t[0] == ' ' && Redaction(t[1..], s[1..], true))
  }

  /** `t` is `s` with some non-empty runs replaced by single spaces. */
  predicate Redacted(t: string, s: string) {
    Redaction(t, s, false)
  }

  /** Single-spaced text: the only whitespace is ' ', never two in a row. */
  predicate SingleSpaced(s: string) {
    && (forall i :: 0 <= i < |s| && IsSpace(s[i]) ==> s[i] == ' ')
    && (forall i :: 0 < i < |s| && s[i] == ' ' ==> s[i - 1] != ' ')
  }

  /** The canonical shape `' '.join(text.split())` produces: single-spaced,
      with no space at either end. */
  predicate Normalized(s: string) {
    && SingleSpaced(s)
    && (|s| > 0 ==> s[0] != ' ' && s[|s| - 1] != ' ')
  }

  /** Length of the leading run of non-whitespace characters. */
  function WordLen(s: string): (n: nat)
    ensures n <= |s|
    ensures forall i :: 0 <= i < n ==> !IsSpace(s[i])
    ensures n < |s| ==> IsSpace(s[n])
  {
    if s == [] || IsSpace(s[0]) then 0 else 1 + WordLen(s[1..])
  }

  /** `gaps[0] + ws[0] + gaps[1] + ... + ws[n - 1] + gaps[n]`. */
  function Weave(gaps: seq<string>, ws: seq<string>): string
    requires |gaps| == |ws| + 1
    decreases |ws|
  {
    if ws == [] then gaps[0] else gaps[0] + ws[0] + Weave(gaps[1..], ws[1..])
  }

  /** `s` is the strings `ws` with whitespace-only gaps around them and a
      non-empty gap between any two of them. When every string of `ws` is a
      word, these are the maximal whitespace-free runs of `s`, in order. */
  predicate Gapped(gaps: seq<string>, ws: seq<string>, s: string) {
    && |gaps| == |ws| + 1
    && (forall j :: 0 <= j < |gaps| ==> AllSpace(gaps[j]))
    && (forall j :: 0 < j < |ws| ==> gaps[j] != [])
    && Weave(gaps, ws) == s
  }

  /** Some gaps weave `ws` into `s`. */
  ghost predicate Woven(ws: seq<string>, s: string) {
    exists gaps :: Gapped(gaps, ws, s)
  }

  /** `s.split()`: the maximal whitespace-free runs of `s`, in order. */
  function Split(s: string): (ws: seq<string>)
    ensures forall j :: 0 <= j < |ws| ==> IsWord(ws[j])
    ensures Woven(ws, s)
    ensures forall j, c :: 0 <= j < |ws| && c in ws[j] ==> c in s
    ensures AllSpace(s) <==> ws == []
    decreases |s|
  {
    if s == [] then
      assert Gapped([[]], [], s);
      []
    else if IsSpace(s[0]) then
      var ws := Split(s[1..]);
      SpaceStep(s, ws);
      ws
    else
      var n := WordLen(s);
      var rest := Split(s[n..]);
      assert !AllSpace(s) by { assert !IsSpace(s[0]); }
      WordStep(s, n, rest);
      [s[..n]] + rest
  }

  lemma SpaceStep(s: string, ws: seq<string>)
    requires s != [] && IsSpace(s[0]) && Woven(ws, s[1..])
    requires forall j, c :: 0 <= j < |ws| && c in ws[j] ==> c in s[1..]
    ensures Woven(ws, s)
    ensures forall j, c :: 0 <= j < |ws| && c in ws[j] ==> c in s
  {
    assert forall c :: c in s[1..] ==> c in s;
    var g :| Gapped(g, ws, s[1..]);
    GapCons(s[0], g, ws, s[1..]);
    assert [s[0]] + s[1..] == s;
  }

  lemma WordStep(s: string, n: nat, rest: seq<string>)
    requires 0 < n <= |s| && IsWord(s[..n]) && (n == |s| || IsSpace(s[n]))
    requires forall j :: 0 <= j < |rest| ==> IsWord(rest[j])
    requires Woven(rest, s[n..])
    requires forall j, c :: 0 <= j < |rest| && c in rest[j] ==> c in s[n..]
    ensures Woven([s[..n]] + rest, s)
    ensures forall j :: 0 <= j < |rest| + 1 ==> IsWord(([s[..n]] + rest)[j])
    ensures forall j, c :: 0 <= j < |rest| + 1 && c in ([s[..n]] + rest)[j] ==> c in s
  {
    assert forall c :: c in s[..n] ==> c in s;
    assert forall c :: c in s[n..] ==> c in s;
    var g :| Gapped(g, rest, s[n..]);
    WordCons(s[..n], g, rest, s[n..]);
    assert s[..n] + s[n..] == s;
  }

  /** A leading whitespace character joins the first gap. */
  lemma GapCons(c: char, gaps: seq<string>, ws: seq<string>, t: string)
    requires IsSpace(c) && Gapped(gaps, ws, t)
    ensures Gapped([[c] + gaps[0]] + gaps[1..], ws, [c] + t)
  {
    var g := [[c] + gaps[0]] + gaps[1..];
    assert g[1..] == gaps[1..];
    if ws != [] {
      assert Weave(g, ws) == ([c] + gaps[0]) + ws[0] + Weave(gaps[1..], ws[1..]);
      assert ([c] + gaps[0]) + ws[0] + Weave(gaps[1..], ws[1..]) == [c] + (gaps[0] + ws[0] + Weave(gaps[1..], ws[1..]));
    }
    assert forall j :: 0 < j < |g| ==> g[j] == gaps[j];
  }

  /** A word followed by whitespace or nothing becomes the first word. */
  lemma WordCons(w: string, gaps: seq<string>, ws: seq<string>, t: string)
    requires IsWord(w) && Gapped(gaps, ws, t)
    requires forall j :: 0 <= j < |ws| ==> IsWord(ws[j])
    requires t == [] || IsSpace(t[0])
    ensures Gapped([[]] + gaps, [w] + ws, w + t)
  {
    var g := [[]] + gaps;
    assert g[1..] == gaps && ([w] + ws)[1..] == ws;
    assert Weave(g, [w] + ws) == [] + w + Weave(gaps, ws);
  }

  /** Conversely, words woven with such gaps are the split of the text:
      `Split` is the only sequence of words with that property. */
  lemma {:induction false} GappedIsSplit(gaps: seq<string>, ws: seq<string>, s: string)
    requires forall j :: 0 <= j < |ws| ==> IsWord(ws[j])
    requires Gapped(gaps, ws, s)
    ensures Split(s) == ws
    decreases |s|
  {
    if gaps[0] != [] {
      var g := [gaps[0][1..]] + gaps[1..];
      assert s[0] == gaps[0][0];
      assert g[1..] == gaps[1..];
      if ws == [] {
        assert s[1..] == gaps[0][1..];
      } else {
        assert s == gaps[0] + ws[0] + Weave(gaps[1..], ws[1..]);
        assert s[1..] == gaps[0][1..] + ws[0] + Weave(gaps[1..], ws[1..]);
      }
      assert forall j :: 0 < j < |g| ==> g[j] == gaps[j];
      assert AllSpace(g[0]) by {
        assert forall i :: 0 <= i < |g[0]| ==> g[0][i] == gaps[0][i + 1];
      }
      GappedIsSplit(g, ws, s[1..]);
    } else if ws != [] {
      var w := ws[0];
      var r := Weave(gaps[1..], ws[1..]);
      assert s == w + r;
      if ws[1..] != [] {
        assert gaps[1] != [];
        assert r == gaps[1] + ws[1] + Weave(gaps[2..], ws[2..]) by {
          assert gaps[1..][1..] == gaps[2..];
        }
        assert r[0] == gaps[1][0];
      }
      WordLenAppend(w, r);
      assert s[..|w|] == w && s[|w|..] == r;
      assert Gapped(gaps[1..], ws[1..], r) by {
        assert forall j :: 0 < j < |ws| - 1 ==> gaps[1..][j] == gaps[j + 1];
      }
      GappedIsSplit(gaps[1..], ws[1..], r);
      assert !IsSpace(s[0]);
    }
  }

  /** `Split(s)` is exactly the sequence of words that, woven with
      whitespace-only gaps (non-empty between words), makes `s`. */
  lemma SplitCharacterized(s: string, ws: seq<string>)
    ensures ws == Split(s) <==>
      (forall j :: 0 <= j < |ws| ==> IsWord(ws[j])) && Woven(ws, s)
  {
    if (forall j :: 0 <= j < |ws| ==> IsWord(ws[j])) && Woven(ws, s) {
      var gaps :| Gapped(gaps, ws, s);
      GappedIsSplit(gaps, ws, s);
    }
  }

  /** `' '.join(ws)`. */
  function Join(ws: seq<string>): string {
    if ws == [] then ""
    else if |ws| == 1 then ws[0]
    else ws[0] + " " + Join(ws[1..])
  }

  /** `' '.join(s.split())`. */
  function Normalize(s: string): (r: string)
    ensures Normalized(r)
    ensures Drawn(r, s)
    ensures Split(r) == Split(s)
    ensures AllSpace(s) <==> r == ""
  {
    var ws := Split(s);
    JoinNormalized(ws);
    JoinDrawn(ws, s);
    SplitJoin(ws);
    Join(ws)
  }

  /** Length of the leading whitespace run. */
  function LeadLen(s: string): (n: nat)
    ensures n <= |s|
    ensures AllSpace(s[..n])
    ensures n < |s| ==> !IsSpace(s[n])
  {
    if s == [] || !IsSpace(s[0]) then 0
    else
      var n := 1 + LeadLen(s[1..]);
      assert s[..n] == [s[0]] + s[1..][..n - 1];
      n
  }

  /** Length of the trailing whitespace run. */
  function TrailLen(s: string): (n: nat)
    ensures n <= |s|
    ensures AllSpace(s[|s| - n..])
    ensures n < |s| ==> !IsSpace(s[|s| - 1 - n])
  {
    if s == [] || !IsSpace(s[|s| - 1]) then 0
    else
      var t := s[..|s| - 1];
      var n := 1 + TrailLen(t);
      assert s[|s| - n..] == t[|t| - (n - 1)..] + [s[|s| - 1]];
      n
  }

  /** `s.strip()`: `s` without its leading and trailing whitespace. */
  function Strip(s: string): (r: string)
    ensures |r| > 0 ==> !IsSpace(r[0]) && !IsSpace(r[|r| - 1])
    ensures LeadLen(s) + |r| <= |s|
    ensures r == s[LeadLen(s)..LeadLen(s) + |r|]
    ensures AllSpace(s[..LeadLen(s)]) && AllSpace(s[LeadLen(s) + |r|..])
    ensures (|s| == 0 || (!IsSpace(s[0]) && !IsSpace(s[|s| - 1]))) ==> r == s
  {
    var a := LeadLen(s);
    var t := s[a..];
    var b := TrailLen(t);
    assert s[a + (|t| - b)..] == t[|t| - b..];
    t[..|t| - b]
  }

  lemma {:induction false} WordLenAppend(w: string, t: string)
    requires forall i :: 0 <= i < |w| ==> !IsSpace(w[i])
    requires t == [] || IsSpace(t[0])
    ensures WordLen(w + t) == |w|
    decreases |w|
  {
    if w != [] {
      assert (w + t)[0] == w[0] && !IsSpace(w[0]);
      assert (w + t)[1..] == w[1..] + t;
      WordLenAppend(w[1..], t);
    } else {
      assert w + t == t;
    }
  }

  /** Joining words and splitting again gives back the same words. */
  lemma {:induction false} SplitJoin(ws: seq<string>)
    requires forall j :: 0 <= j < |ws| ==> IsWord(ws[j])
    ensures Split(Join(ws)) == ws
    decreases |ws|
  {
    if ws == [] {
    } else if |ws| == 1 {
      var w := ws[0];
      WordLenAppend(w, []);
      assert w + [] == w;
      assert w[..|w|] == w;
      assert w[|w|..] == [];
    } else {
      var w := ws[0];
      var rest := Join(ws[1..]);
      var s := w + " " + rest;
      WordLenAppend(w, " " + rest);
      assert s == w + (" " + rest);
      assert s[..|w|] == w;
      assert s[|w|..] == " " + rest;
      assert (" " + rest)[1..] == rest;
      SplitJoin(ws[1..]);
      assert Split(s) == [w] + Split(" " + rest);
      assert Split(" " + rest) == Split(rest);
    }
  }

  lemma JoinNonEmpty(ws: seq<string>)
    requires forall j :: 0 <= j < |ws| ==> IsWord(ws[j])
    requires ws != []
    ensures |Join(ws)| > 0 && !IsSpace(Join(ws)[0])
  {
    if |ws| > 1 {
      assert Join(ws)[0] == ws[0][0];
    }
  }

  /** A join of words has the canonical spacing. */
  lemma {:induction false} JoinNormalized(ws: seq<string>)
    requires forall j :: 0 <= j < |ws| ==> IsWord(ws[j])
    ensures Normalized(Join(ws))
    decreases |ws|
  {
    if |ws| > 1 {
      var w := ws[0];
      var rest := Join(ws[1..]);
      JoinNormalized(ws[1..]);
      JoinNonEmpty(ws[1..]);
      var s := w + " " + rest;
      assert s == Join(ws);
      forall i | 0 <= i < |s| && IsSpace(s[i])
        ensures s[i] == ' '
      {
        if i > |w| {
          assert s[i] == rest[i - |w| - 1];
        }
      }
      forall i | 0 < i < |s| && s[i] == ' '
        ensures s[i - 1] != ' '
      {
        if i == |w| {
          assert s[i - 1] == w[|w| - 1];
        } else if i > |w| + 1 {
          assert s[i] == rest[i - |w| - 1];
          assert s[i - 1] == rest[i - |w| - 2];
        }
      }
      assert s[|s| - 1] == rest[|rest| - 1];
    }
  }

  lemma {:induction false} JoinDrawn(ws: seq<string>, s: string)
    requires forall j, c :: 0 <= j < |ws| && c in ws[j] ==> c in s
    ensures Drawn(Join(ws), s)
    decreases |ws|
  {
    if |ws| > 1 {
      JoinDrawn(ws[1..], s);
      forall c | c in Join(ws)
        ensures c == ' ' || c in s
      {
        assert c in ws[0] || c in " " || c in Join(ws[1..]);
      }
    } else if |ws| == 1 {
      assert forall c :: c in Join(ws) ==> c in ws[0];
    }
  }

  /** The text after a separating space of canonical text is canonical. */
  lemma NormalizedTail(s: string, k: nat)
    requires Normalized(s)
    requires 0 < k < |s| && s[k - 1] == ' '
    ensures Normalized(s[k..]) && !IsSpace(s[k])
  {
    var rest := s[k..];
    forall i | 0 < i < |rest| && rest[i] == ' '
      ensures rest[i - 1] != ' '
    {
      assert rest[i] == s[k + i];
      assert rest[i - 1] == s[k + i - 1];
    }
    assert rest[|rest| - 1] == s[|s| - 1];
  }

  /** Splitting at the end of the first word. */
  lemma SplitFirstWord(s: string, n: nat)
    requires 0 < n < |s| && n == WordLen(s)
    ensures Split(s) == [s[..n]] + Split(s[n + 1..])
  {
    assert !IsSpace(s[0]);
    assert s[n..][1..] == s[n + 1..];
  }

  lemma JoinCons(w: string, ws: seq<string>)
    requires ws != []
    ensures Join([w] + ws) == w + " " + Join(ws)
  {
    assert ([w] + ws)[1..] == ws;
  }

  /** A text is its prefix, the space at `n` and its suffix. */
  lemma Reassemble(s: string, n: nat)
    requires n < |s| && s[n] == ' '
    ensures s == s[..n] + " " + s[n + 1..]
  {
    assert s == s[..n] + s[n..];
    assert s[n..] == " " + s[n + 1..];
  }

  /** One word and its separating space peeled off the front of a text. */
  lemma NormalizeFixesStep(s: string, n: nat)
    requires 0 < n && n + 1 < |s| && n == WordLen(s) && s[n] == ' '
    requires Split(s[n + 1..]) != []
    requires Join(Split(s[n + 1..])) == s[n + 1..]
    ensures Join(Split(s)) == s
  {
    var rest := s[n + 1..];
    var w := s[..n];
    SplitFirstWord(s, n);
    JoinCons(w, Split(rest));
    Reassemble(s, n);
  }

  /** Text already in canonical shape is left as it is by the normalisation. */
  lemma {:induction false} NormalizeFixes(s: string)
    requires Normalized(s)
    ensures Join(Split(s)) == s
    decreases |s|
  {
    if s != [] {
      var n := WordLen(s);
      assert !IsSpace(s[0]);
      if n == |s| {
        assert s[..n] == s;
        assert s[n..] == [];
        assert Split(s) == [s];
      } else {
        assert s[n] == ' ';
        assert n + 1 < |s|;
        NormalizedTail(s, n + 1);
        NormalizeFixes(s[n + 1..]);
        assert Split(s[n + 1..]) != [] by {
          assert !IsSpace(s[n + 1..][0]);
        }
        NormalizeFixesStep(s, n);
      }
    }
  }

  /** Canonical text comes out of `' '.join(s.split()).strip()` unchanged. */
  lemma NormalizeStripFixes(s: string)
    requires Normalized(s)
    ensures Strip(Normalize(s)) == s
  {
    NormalizeFixes(s);
    assert Normalize(s) == s;
  }

  /** A word behind one space splits into that word alone. */
  lemma SpacedWordSplit(w: string)
    requires IsWord(w)
    ensures Split(" " + w) == [w]
  {
    var gaps := [" ", ""];
    assert Weave(gaps[1..], []) == "";
    assert Weave(gaps, [w]) == " " + w + "";
    GappedIsSplit(gaps, [w], " " + w);
  }

  /** Cutting nothing is a redaction. */
  lemma {:induction false} RedactionSelf(s: string)
    ensures Redaction(s, s, false)
    decreases |s|
  {
    if s != [] {
      RedactionSelf(s[1..]);
    }
  }

  /** Every redaction may also be read with the cut still open. */
  lemma RedactionOpen(t: string, s: string)
    requires Redaction(t, s, false)
    ensures Redaction(t, s, true)
  {
  }

  /** Cutting the first `k` characters of `s` into the space just emitted,
      then redacting the rest. */
  lemma {:induction false} RedactionSwallow(t: string, s: string, k: nat)
    requires 1 <= k <= |s|
    requires Redaction(t, s[k..], false)
    ensures Redaction(t, s[1..], true)
    decreases k
  {
    if k == 1 {
      RedactionOpen(t, s[1..]);
    } else {
      assert s[1..][k - 1..] == s[k..];
      RedactionSwallow(t, s[1..], k - 1);
      assert s[1..][1..] == s[2..];
    }
  }

  /** A redaction of a redaction is a redaction: every run cut the second
      time covers characters kept or spaces standing for runs cut the first
      time, so it stands for one run of the original. */
  lemma {:induction false} RedactionTrans(r: string, t: string, s: string, a: bool, b: bool)
    requires Redaction(r, t, a) && Redaction(t, s, b)
    ensures Redaction(r, s, a || b)
    decreases |s| + |t|
  {
    if s == [] {
    } else if b && Redaction(t, s[1..], true) {
      RedactionTrans(r, t, s[1..], a, true);
    } else if t != [] && t[0] == s[0] && Redaction(t[1..], s[1..], false) {
      if a && Redaction(r, t[1..], true) {
        RedactionTrans(r, t[1..], s[1..], true, false);
      } else if r != [] && r[0] == t[0] && Redaction(r[1..], t[1..], false) {
        RedactionTrans(r[1..], t[1..], s[1..], false, false);
      } else {
        RedactionTrans(r[1..], t[1..], s[1..], true, false);
      }
    } else {
      if a && Redaction(r, t[1..], true) {
        RedactionTrans(r, t[1..], s[1..], true, true);
      } else if r != [] && r[0] == t[0] && Redaction(r[1..], t[1..], false) {
        RedactionTrans(r[1..], t[1..], s[1..], false, true);
      } else {
        RedactionTrans(r[1..], t[1..], s[1..], true, true);
      }
    }
  }
}
