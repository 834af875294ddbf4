/**
 * The speech text sanitiser: fourteen regular expressions, each replaced
 * left to right, without overlap, by a single space (`re.sub(p, ' ', text)`),
 * applied one after the other, followed by `' '.join(text.split()).strip()`.
 *
 * Every pattern is modelled by `MatchAt`, the length of the match the regular
 * expression engine finds anchored at the start of a string (0 when there is
 * none; no pattern here can match the empty string), and `Sub` is the
 * scanner `re.sub` runs with it.
 */
module SpeechFilter {
  import opened Text

  /** The patterns, in the order they are applied. */
  datatype Pattern =
    | Astral       // [\U00010000-\U0010ffff]
    | Emoticon     // [:;=]-?[)(/\\|dpDP]
    | Laughing     // [xX]-?[dD]
    | Surprised    // :[oO]
    | Caret        // \^[_-]?\^
    | Squint       // >?[_-]?<
    | WideEyes     // [oO][._][oO]
    | Action       // \*[^*]+\*
    | Shortcode    // :[a-zA-Z_]+:
    | Heart        // <3
    | BrokenHeart  // </3
    | ThumbsUp     // \(y\)
    | ThumbsDown   // \(n\)
    | Spaces       // \s+

  const Patterns: seq<Pattern> :=
    [Astral, Emoticon, Laughing, Surprised, Caret, Squint, WideEyes,
     Action, Shortcode, Heart, BrokenHeart, ThumbsUp, ThumbsDown, Spaces]

  /** A code point outside the Basic Multilingual Plane. */
  predicate IsAstral(c: char) {
    c as int >= 0x10000
  }

  predicate IsMouth(c: char) {
    c in ")(/\\|dpDP"
  }

  predicate IsShortcodeChar(c: char) {
    ('a' <= c <= 'z') || ('A' <= c <= 'Z') || c == '_'
  }

  predicate IsDash(c: char) { c == '-' }
  predicate IsUnderOrDash(c: char) { c == '_' || c == '-' }
  predicate IsLetterD(c: char) { c == 'd' || c == 'D' }
  predicate IsCaret(c: char) { c == '^' }
  predicate IsLess(c: char) { c == '<' }
  predicate NotStar(c: char) { c != '*' }

  /** Length of the longest prefix of `s` whose characters all satisfy `cls`
      (a greedy `[...]*`). */
  function RunLen(s: string, cls: char -> bool): (n: nat)
    ensures n <= |s|
    ensures forall i :: 0 <= i < n ==> cls(s[i])
    ensures n < |s| ==> !cls(s[n])
  {
    if s == [] || !cls(s[0]) then 0 else 1 + RunLen(s[1..], cls)
  }

  /** Match length of `[opt]?[last]` at the start of `s`: the optional class
      is tried first, then skipped, as the backtracking engine does. */
  function OptThen(s: string, opt: char -> bool, last: char -> bool): (n: nat)
    ensures n <= 2 && n <= |s|
  {
    if 2 <= |s| && opt(s[0]) && last(s[1]) then 2
    else if 1 <= |s| && last(s[0]) then 1
    else 0
  }

  /** Match length of a fixed literal at the start of `s`. */
  function Literal(s: string, lit: string): (n: nat)
    ensures n <= |s|
  {
    if |lit| <= |s| && s[..|lit|] == lit then |lit| else 0
  }

  /** The strings each pattern's regular expression denotes, written out
      independently of the matcher. */
  predicate InLanguage(p: Pattern, w: string) {
    match p
    case Astral => |w| == 1 && IsAstral(w[0])
    case Emoticon =>
      (|w| == 2 && w[0] in ":;=" && IsMouth(w[1]))
      || (|w| == 3 && w[0] in ":;=" && w[1] == '-' && IsMouth(w[2]))
    case Laughing =>
      (|w| == 2 && w[0] in "xX" && IsLetterD(w[1]))
      || (|w| == 3 && w[0] in "xX" && w[1] == '-' && IsLetterD(w[2]))
    case Surprised => |w| == 2 && w[0] == ':' && w[1] in "oO"
    case Caret =>
      (|w| == 2 && w[0] == '^' && w[1] == '^')
      || (|w| == 3 && w[0] == '^' && w[1] in "_-" && w[2] == '^')
    case Squint =>
      (|w| == 1 && w[0] == '<')
      || (|w| == 2 && w[0] in ">_-" && w[1] == '<')
      || (|w| == 3 && w[0] == '>' && w[1] in "_-" && w[2] == '<')
    case WideEyes => |w| == 3 && w[0] in "oO" && w[1] in "._" && w[2] in "oO"
    case Action =>
      && |w| >= 3 && w[0] == '*' && w[|w| - 1] == '*'
      && forall i :: 0 < i < |w| - 1 ==> w[i] != '*'
    case Shortcode =>
      && |w| >= 3 && w[0] == ':' && w[|w| - 1] == ':'
      && forall i :: 0 < i < |w| - 1 ==> IsShortcodeChar(w[i])
    case Heart => w == "<3"
    case BrokenHeart => w == "</3"
    case ThumbsUp => w == "(y)"
    case ThumbsDown => w == "(n)"
    case Spaces => |w| >= 1 && forall i :: 0 <= i < |w| ==> IsSpace(w[i])
  }

  /** Length of the match of `p` anchored at the start of `s`, 0 for none. */
  function MatchAt(p: Pattern, s: string): (n: nat)
    ensures n <= |s|
  {
    if s == [] then 0
    else match p
      case Astral => if IsAstral(s[0]) then 1 else 0
      case Emoticon =>
        var m := OptThen(s[1..], IsDash, IsMouth);
        if s[0] in ":;=" && m > 0 then 1 + m else 0
      case Laughing =>
        var m := OptThen(s[1..], IsDash, IsLetterD);
        if s[0] in "xX" && m > 0 then 1 + m else 0
      case Surprised =>
        if 2 <= |s| && s[0] == ':' && s[1] in "oO" then 2 else 0
      case Caret =>
        var m := OptThen(s[1..], IsUnderOrDash, IsCaret);
        if s[0] == '^' && m > 0 then 1 + m else 0
      case Squint =>
        var m := OptThen(s[1..], IsUnderOrDash, IsLess);
        if s[0] == '>' && m > 0 then 1 + m
        else OptThen(s, IsUnderOrDash, IsLess)
      case WideEyes =>
        if 3 <= |s| && s[0] in "oO" && s[1] in "._" && s[2] in "oO" then 3 else 0
      case Action =>
        var m := RunLen(s[1..], NotStar);
        if s[0] == '*' && m > 0 && 1 + m < |s| then m + 2 else 0
      case Shortcode =>
        var m := RunLen(s[1..], IsShortcodeChar);
        if s[0] == ':' && m > 0 && 1 + m < |s| && s[1 + m] == ':' then m + 2 else 0
      case Heart => Literal(s, "<3")
      case BrokenHeart => Literal(s, "</3")
      case ThumbsUp => Literal(s, "(y)")
      case ThumbsDown => Literal(s, "(n)")
      case Spaces => RunLen(s, IsSpace)
  }

  /** What the matcher finds is a word of the pattern's language. */
  lemma MatchAtSound(p: Pattern, s: string)
    ensures var n := MatchAt(p, s); n > 0 ==> InLanguage(p, s[..n])
  {
  }

  /** The matcher finds the longest prefix in the pattern's language, and
      finds one whenever one exists: with `MatchAtSound`,
      a match of length `n > 0` is exactly the longest such prefix, and 0
      means there is none. */
  lemma MatchAtLongest(p: Pattern, s: string, k: nat)
    requires 0 < k <= |s| && InLanguage(p, s[..k])
    ensures k <= MatchAt(p, s)
  {
    var w := s[..k];
    assert forall i :: 0 <= i < k ==> w[i] == s[i];
    match p
    case Action =>
      assert forall i :: 0 <= i < k - 2 ==> NotStar(s[1..][i]);
      assert s[1..][k - 2] == '*';
    case Shortcode =>
      assert forall i :: 0 <= i < k - 2 ==> IsShortcodeChar(s[1..][i]);
      assert s[1..][k - 2] == ':';
    case Spaces =>
    case Heart =>
      assert s[..2] == w;
    case BrokenHeart =>
      assert s[..3] == w;
    case ThumbsUp =>
      assert s[..3] == w;
    case ThumbsDown =>
      assert s[..3] == w;
    case _ =>
  }

  /** `\*[^*]+\*` at the front of a text takes exactly the `*...*` segment
      when its interior is non-empty and asterisk-free, whatever follows:
      the segment becomes one space and the scan resumes after it. */
  lemma ActionSegmentReplaced(a: string, rest: string)
    requires |a| > 0 && '*' !in a
    ensures Sub(Action, "*" + a + "*" + rest) == " " + Sub(Action, rest)
  {
    var s := "*" + a + "*" + rest;
    var k := |a| + 2;
    assert s[..k] == "*" + a + "*";
    assert forall i :: 0 < i < k - 1 ==> s[..k][i] == a[i - 1];
    MatchAtLongest(Action, s, k);
    MatchAtSound(Action, s);
    assert MatchAt(Action, s) == k;
    assert s[k..] == rest;
  }

  /** `re.sub(p, ' ', s)`: scan left to right, replacing every match found
      by one space and resuming right after it. */
  function Sub(p: Pattern, s: string): (r: string)
    ensures Drawn(r, s)
    ensures Redacted(r, s)
    decreases |s|
  {
    if s == [] then []
    else
      var n := MatchAt(p, s);
      if n > 0 then
        var rest := Sub(p, s[n..]);
        var r := " " + rest;
        assert forall c :: c in s[n..] ==> c in s;
        RedactionSwallow(rest, s, n);
        assert r[1..] == rest;
        r
      else
        var rest := Sub(p, s[1..]);
        var r := [s[0]] + rest;
        assert forall c :: c in s[1..] ==> c in s;
        assert r[1..] == rest;
        r
  }

  /** The `for pattern in patterns` loop. */
  function Apply(ps: seq<Pattern>, s: string): (r: string)
    ensures Drawn(r, s)
    ensures Redacted(r, s)
  {
    if ps == [] then
      assert Redacted(s, s) by { RedactionSelf(s); }
      s
    else
      var t := Sub(ps[0], s);
      var r := Apply(ps[1..], t);
      RedactionTrans(r, t, s, false, false);
      r
  }

  /** `SpeechFilter.filter`. */
  function Filter(text: string): (r: string)
    ensures Normalized(r)
    ensures Drawn(r, text)
    ensures forall c :: c in r ==> !IsAstral(c) && c != '<'
    ensures AllSpace(text) ==> r == ""
  {
    var t := Apply(Patterns, text);
    FilterClears(text);
    RespacedClean(t, text);
    Strip(Normalize(t))
  }

  /** Re-spacing and trimming text drawn from `s` gives canonical text, still
      drawn from `s`, free of whatever `t` was free of. */
  lemma RespacedClean(t: string, s: string)
    requires Drawn(t, s)
    requires forall c :: c in t ==> !IsAstral(c) && c != '<'
    ensures var r := Strip(Normalize(t));
      && Normalized(r)
      && Drawn(r, s)
      && (forall c :: c in r ==> !IsAstral(c) && c != '<')
      && (AllSpace(s) ==> r == "")
  {
    var n := Normalize(t);
    DrawnAllSpace(t, s);
    assert Strip(n) == n;
    assert forall c :: c in n ==> c == ' ' || c in t;
  }

  /** `p` finds no match anywhere in `s`. */
  predicate Untouched(p: Pattern, s: string) {
    forall i :: 0 <= i < |s| ==> MatchAt(p, s[i..]) == 0
  }

  /** A pattern that never matches leaves the text as it is. */
  lemma {:induction false} SubUntouched(p: Pattern, s: string)
    requires Untouched(p, s)
    ensures Sub(p, s) == s
    decreases |s|
  {
    if s != [] {
      assert s[0..] == s;
      assert Untouched(p, s[1..]) by {
        forall i | 0 <= i < |s[1..]|
          ensures MatchAt(p, s[1..][i..]) == 0
        {
          assert s[1..][i..] == s[i + 1..];
        }
      }
      SubUntouched(p, s[1..]);
      assert s == [s[0]] + s[1..];
    }
  }

  /** After the first pattern no character outside the Basic Multilingual
      Plane is left. */
  lemma {:induction false} AstralCleared(s: string)
    ensures forall c :: c in Sub(Astral, s) ==> !IsAstral(c)
    decreases |s|
  {
    if s != [] {
      var n := MatchAt(Astral, s);
      if n > 0 {
        AstralCleared(s[n..]);
      } else {
        AstralCleared(s[1..]);
      }
    }
  }

  /** `>?[_-]?<` matches at every '<' the scan reaches, so no '<' survives
      the sixth pattern. */
  lemma {:induction false} AngleCleared(s: string)
    ensures '<' !in Sub(Squint, s)
    decreases |s|
  {
    if s != [] {
      var n := MatchAt(Squint, s);
      assert s[0] == '<' ==> n > 0;
      if n > 0 {
        AngleCleared(s[n..]);
      } else {
        AngleCleared(s[1..]);
      }
    }
  }

  /** Text without '<' is never touched by the heart patterns, which is why
      `<3` and `</3`, coming after `>?[_-]?<`, never fire. */
  lemma HeartsUnreachable(s: string)
    requires '<' !in s
    ensures Sub(Heart, s) == s && Sub(BrokenHeart, s) == s
  {
    forall i | 0 <= i < |s|
      ensures MatchAt(Heart, s[i..]) == 0 && MatchAt(BrokenHeart, s[i..]) == 0
    {
      assert s[i..][0] == s[i];
    }
    SubUntouched(Heart, s);
    SubUntouched(BrokenHeart, s);
  }

  lemma {:induction false} ApplyAppend(ps: seq<Pattern>, qs: seq<Pattern>, s: string)
    ensures Apply(ps + qs, s) == Apply(qs, Apply(ps, s))
    decreases |ps|
  {
    if ps != [] {
      assert (ps + qs)[1..] == ps[1..] + qs;
      ApplyAppend(ps[1..], qs, Sub(ps[0], s));
    } else {
      assert ps + qs == qs;
    }
  }

  /** Re-spacing whitespace-only text leaves it whitespace-only. */
  lemma DrawnAllSpace(t: string, s: string)
    requires Drawn(t, s)
    ensures AllSpace(s) ==> AllSpace(t)
  {
    if AllSpace(s) {
      forall i | 0 <= i < |t|
        ensures IsSpace(t[i])
      {
        assert t[i] in t;
        if t[i] != ' ' {
          var j :| 0 <= j < |s| && s[j] == t[i];
        }
      }
    }
  }

  lemma FilterClears(text: string)
    ensures var t := Apply(Patterns, text);
      forall c :: c in t ==> !IsAstral(c) && c != '<'
  {
    var t := Apply(Patterns, text);
    AstralCleared(text);
    var t1 := Sub(Astral, text);
    assert Patterns == [Astral] + Patterns[1..];
    assert t == Apply(Patterns[1..], t1);
    assert Patterns == Patterns[..6] + Patterns[6..];
    ApplyAppend(Patterns[..6], Patterns[6..], text);
    var t6 := Apply(Patterns[..6], text);
    assert Patterns[..6] == Patterns[..5] + [Squint];
    ApplyAppend(Patterns[..5], [Squint], text);
    AngleCleared(Apply(Patterns[..5], text));
    assert '<' !in t6;
  }

  /** The sixth pattern has removed every '<' before the heart patterns run,
      so `<3` and `</3` never fire inside `Filter`. */
  lemma HeartsNeverFire(text: string)
    ensures var t := Apply(Patterns[..9], text);
      Sub(Heart, t) == t && Sub(BrokenHeart, t) == t
  {
    assert Patterns[..9] == Patterns[..5] + [Squint] + Patterns[6..9];
    ApplyAppend(Patterns[..5] + [Squint], Patterns[6..9], text);
    ApplyAppend(Patterns[..5], [Squint], text);
    AngleCleared(Apply(Patterns[..5], text));
    HeartsUnreachable(Apply(Patterns[..9], text));
  }

  lemma {:induction false} ApplyFixed(ps: seq<Pattern>, s: string)
    requires forall i :: 0 <= i < |ps| ==> Sub(ps[i], s) == s
    ensures Apply(ps, s) == s
    decreases |ps|
  {
    if ps != [] {
      ApplyFixed(ps[1..], s);
    }
  }

  /** `\s+` replaces each lone ' ' by ' ': single-spaced text is unchanged. */
  lemma {:induction false} SpacesFixSingleSpaced(s: string)
    requires SingleSpaced(s)
    ensures Sub(Spaces, s) == s
    decreases |s|
  {
    if s != [] {
      assert SingleSpaced(s[1..]) by {
        forall i | 0 < i < |s[1..]| && s[1..][i] == ' '
          ensures s[1..][i - 1] != ' '
        {
          assert s[1..][i] == s[i + 1];
        }
      }
      SpacesFixSingleSpaced(s[1..]);
      if IsSpace(s[0]) {
        assert 1 < |s| ==> !IsSpace(s[1]);
        assert MatchAt(Spaces, s) == 1;
      } else {
        assert MatchAt(Spaces, s) == 0;
      }
      assert s == [s[0]] + s[1..];
    }
  }

  /** Text that no removal pattern touches and that is already trimmed and
      single-spaced comes out of the filter unchanged. */
  lemma FilterFixedPoint(text: string)
    requires forall p :: p != Spaces ==> Untouched(p, text)
    requires Normalized(text)
    ensures Filter(text) == text
  {
    PatternsFix(text);
    NormalizeStripFixes(text);
  }

  /** Every pattern, and so the pattern loop, leaves such text alone. */
  lemma PatternsFix(text: string)
    requires forall p :: p != Spaces ==> Untouched(p, text)
    requires Normalized(text)
    ensures Apply(Patterns, text) == text
  {
    forall i | 0 <= i < |Patterns|
      ensures Sub(Patterns[i], text) == text
    {
      if Patterns[i] == Spaces {
        SpacesFixSingleSpaced(text);
      } else {
        SubUntouched(Patterns[i], text);
      }
    }
    ApplyFixed(Patterns, text);
  }

  /** Lower-case ASCII letters other than 'x' (which could start `xD`). */
  predicate Plain(w: string) {
    |w| > 0 && forall i :: 0 <= i < |w| ==> 'a' <= w[i] <= 'z' && w[i] != 'x'
  }

  /** Characters that can start no match except of `\*[^*]+\*` and `\s+`. */
  predicate Benign(s: string) {
    forall i :: 0 <= i < |s| ==> ('a' <= s[i] <= 'z' && s[i] != 'x') || s[i] == '*' || s[i] == ' '
  }

  lemma BenignUntouched(p: Pattern, s: string)
    requires p != Action && p != Spaces
    requires Benign(s)
    ensures Untouched(p, s)
  {
    forall i | 0 <= i < |s|
      ensures MatchAt(p, s[i..]) == 0
    {
      var t := s[i..];
      assert t[0] == s[i];
      assert 1 < |t| ==> t[1] == s[i + 1];
      assert Literal(t, "<3") == 0 && Literal(t, "</3") == 0 by {
        if 2 <= |t| { assert t[..2][0] == t[0]; }
        if 3 <= |t| { assert t[..3][0] == t[0]; }
      }
      assert Literal(t, "(y)") == 0 && Literal(t, "(n)") == 0 by {
        if 3 <= |t| { assert t[..3][0] == t[0]; }
      }
    }
  }

  lemma PlainIsBenign(w: string)
    requires Plain(w)
    ensures Benign(w) && Untouched(Action, w) && Untouched(Spaces, w)
  {
    forall i | 0 <= i < |w|
      ensures MatchAt(Action, w[i..]) == 0 && MatchAt(Spaces, w[i..]) == 0
    {
      assert w[i..][0] == w[i];
    }
  }

  /** The action pattern matches the whole `*a*` in front. */
  lemma ActionMatch(a: string, w: string)
    requires Plain(a) && Plain(w)
    ensures MatchAt(Action, "*" + a + "* " + w) == |a| + 2
  {
    var s := "*" + a + "* " + w;
    assert s[1..][|a|] == '*';
    assert forall k :: 0 <= k < |a| ==> s[1..][k] == a[k];
    assert RunLen(s[1..], NotStar) == |a|;
  }

  /** No action segment starts anywhere in a space followed by a plain word. */
  lemma SpacedWordUntouched(w: string)
    requires Plain(w)
    ensures Untouched(Action, " " + w)
  {
    var tail := " " + w;
    PlainIsBenign(w);
    forall i | 0 <= i < |tail|
      ensures MatchAt(Action, tail[i..]) == 0
    {
      if i > 0 {
        assert tail[i..] == w[i - 1..];
      }
    }
  }

  /** The action pattern replaces the `*a*` in front and nothing else. */
  lemma ActionStep(a: string, w: string)
    requires Plain(a) && Plain(w)
    ensures Sub(Action, "*" + a + "* " + w) == "  " + w
  {
    var s := "*" + a + "* " + w;
    assert s[|a| + 2..] == " " + w;
    ActionMatch(a, w);
    SpacedWordUntouched(w);
    SubUntouched(Action, " " + w);
  }

  /** The whitespace pattern collapses the two separators into one. */
  lemma SpacesStep(w: string)
    requires Plain(w)
    ensures Sub(Spaces, "  " + w) == " " + w
  {
    var u := "  " + w;
    assert RunLen(u, IsSpace) == 2 by {
      assert u[2] == w[0];
      assert u[..2] == "  ";
    }
    assert u[2..] == w;
    PlainIsBenign(w);
    SubUntouched(Spaces, w);
  }

  /** Normalising a word behind one space leaves the word. */
  lemma NormalizeSpacedWord(w: string)
    requires Plain(w)
    ensures Strip(Normalize(" " + w)) == w
  {
    assert IsWord(w);
    SpacedWordSplit(w);
    assert Normalize(" " + w) == w;
  }

  lemma BenignFixed(ps: seq<Pattern>, s: string)
    requires Benign(s)
    requires forall i :: 0 <= i < |ps| ==> ps[i] != Action && ps[i] != Spaces
    ensures Apply(ps, s) == s
  {
    forall i | 0 <= i < |ps|
      ensures Sub(ps[i], s) == s
    {
      BenignUntouched(ps[i], s);
      SubUntouched(ps[i], s);
    }
    ApplyFixed(ps, s);
  }

  lemma FramedBenign(a: string, w: string)
    requires Plain(a) && Plain(w)
    ensures Benign("*" + a + "* " + w) && Benign("  " + w)
  {
    var s := "*" + a + "* " + w;
    forall i | 0 <= i < |s|
      ensures ('a' <= s[i] <= 'z' && s[i] != 'x') || s[i] == '*' || s[i] == ' '
    {
      if 1 <= i <= |a| {
        assert s[i] == a[i - 1];
      } else if i >= |a| + 3 {
        assert s[i] == w[i - |a| - 3];
      }
    }
    var u := "  " + w;
    forall i | 0 <= i < |u|
      ensures ('a' <= u[i] <= 'z' && u[i] != 'x') || u[i] == '*' || u[i] == ' '
    {
      if i >= 2 { assert u[i] == w[i - 2]; }
    }
  }

  /** The pattern list is seven patterns, the action pattern, five more and
      the whitespace pattern last. */
  lemma PatternsAroundAction()
    ensures Patterns == Patterns[..7] + [Action] + Patterns[8..13] + [Spaces]
    ensures forall i :: 0 <= i < 7 ==> Patterns[..7][i] != Action && Patterns[..7][i] != Spaces
    ensures forall i :: 0 <= i < 5 ==> Patterns[8..13][i] != Action && Patterns[8..13][i] != Spaces
  {
  }

  /** Applying a list made of a front, one pattern, a middle and a last
      pattern is applying each part in turn. */
  lemma ApplyParts(front: seq<Pattern>, p: Pattern, middle: seq<Pattern>, q: Pattern, s: string)
    ensures Apply(front + [p] + middle + [q], s) == Sub(q, Apply(middle, Sub(p, Apply(front, s))))
  {
    ApplyAppend(front + [p] + middle, [q], s);
    ApplyAppend(front + [p], middle, s);
    ApplyAppend(front, [p], s);
    assert Apply([q], Apply(front + [p] + middle, s)) == Sub(q, Apply(front + [p] + middle, s));
    assert Apply([p], Apply(front, s)) == Sub(p, Apply(front, s));
  }

  /** The patterns around the action and whitespace patterns leave the
      example text alone. */
  lemma ActionPatterns(a: string, w: string)
    requires Plain(a) && Plain(w)
    ensures Apply(Patterns, "*" + a + "* " + w) == " " + w
  {
    var s := "*" + a + "* " + w;
    PatternsAroundAction();
    FramedBenign(a, w);
    BenignFixed(Patterns[..7], s);
    ActionStep(a, w);
    BenignFixed(Patterns[8..13], "  " + w);
    SpacesStep(w);
    ApplyParts(Patterns[..7], Action, Patterns[8..13], Spaces, s);
  }

  /** A stage direction `*...*` (non-empty, without '*') in front of a word
      is replaced by a separator that the final normalisation drops. */
  lemma ActionDropped(a: string, w: string)
    requires Plain(a) && Plain(w)
    ensures Filter("*" + a + "* " + w) == w
  {
    ActionPatterns(a, w);
    NormalizeSpacedWord(w);
  }

  /** Two plain words separated by one space pass through unchanged. */
  lemma PlainWordsKept(u: string, w: string)
    requires Plain(u) && Plain(w)
    ensures Filter(u + " " + w) == u + " " + w
  {
    var s := u + " " + w;
    assert Benign(s) by {
      forall i | 0 <= i < |s|
        ensures ('a' <= s[i] <= 'z' && s[i] != 'x') || s[i] == ' '
      {
        if i < |u| { assert s[i] == u[i]; }
        else if i > |u| { assert s[i] == w[i - |u| - 1]; }
      }
    }
    forall p | p != Spaces
      ensures Untouched(p, s)
    {
      if p == Action {
        forall i | 0 <= i < |s|
          ensures MatchAt(Action, s[i..]) == 0
        {
          assert s[i..][0] == s[i];
        }
      } else {
        BenignUntouched(p, s);
      }
    }
    assert s[0] == u[0] && s[|s| - 1] == w[|w| - 1];
    assert forall i :: 0 < i < |s| && s[i] == ' ' ==> i == |u|;
    FilterFixedPoint(s);
  }

  /** An example: `filter("*smiles* hello") == "hello"`. */
  lemma ActionExample()
    ensures Filter("*smiles* hello") == "hello"
  {
    assert "*smiles* hello" == "*" + "smiles" + "* " + "hello";
    ActionDropped("smiles", "hello");
  }
}
