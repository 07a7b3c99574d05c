/** The G-code preprocessor of GCode: the fixed regular expression
    `([a-zA-Z][\-+]*\d+\.*\d*)\s*` whose every match is replaced by the
    word it captured followed by one space, and Go's strings.Fields, which
    then splits the rewritten text into tokens. */
module Gcode {
  import opened Wrappers

  predicate IsLetter(c: char) { 'a' <= c <= 'z' || 'A' <= c <= 'Z' }

  /** The ASCII characters unicode.IsSpace accepts, used by strings.Fields
      and strings.TrimSpace. */
  predicate IsSpace(c: char) {
    c == '\t' || c == '\n' || c == '\U{000B}' || c == '\U{000C}' || c == '\r' || c == ' '
  }

  /** The character classes the scanner and strings.Fields step over. */
  datatype Class = Sign | Digit | Dot | RegexSpace | Space | NonSpace

  predicate In(cl: Class, c: char) {
    match cl
    case Sign => c == '-' || c == '+'
    case Digit => '0' <= c <= '9'
    case Dot => c == '.'
    // `\s` of Go's regexp syntax: tab, newline, form feed, carriage return, space
    case RegexSpace => c == '\t' || c == '\n' || c == '\U{000C}' || c == '\r' || c == ' '
    case Space => IsSpace(c)
    case NonSpace => !IsSpace(c)
  }

  /** Every character of `s[i..j]` is of class `cl`. */
  predicate AllIn(s: string, i: nat, j: nat, cl: Class)
    requires j <= |s|
  {
    forall k {:trigger In(cl, s[k])} :: i <= k < j ==> In(cl, s[k])
  }

  /** A text without white space. */
  predicate NoSpace(t: string) {
    AllIn(t, 0, |t|, NonSpace)
  }

  // ---------------------------------------------------------------------
  // Maximal runs

  /** `s[i..i+n]` is a run of class `cl` that cannot be extended. */
  predicate IsRun(s: string, i: nat, cl: Class, n: nat) {
    && i + n <= |s|
    && AllIn(s, i, i + n, cl)
    && (i + n == |s| || !In(cl, s[i + n]))
  }

  lemma {:induction false} RunExists(s: string, i: nat, cl: Class)
    requires i <= |s|
    ensures exists n: nat :: IsRun(s, i, cl, n)
    decreases |s| - i
  {
    if i < |s| && In(cl, s[i]) {
      RunExists(s, i + 1, cl);
      var n: nat :| IsRun(s, i + 1, cl, n);
      assert IsRun(s, i, cl, n + 1);
    } else {
      assert IsRun(s, i, cl, 0);
    }
  }

  lemma RunUnique(s: string, i: nat, cl: Class, m: nat, n: nat)
    requires IsRun(s, i, cl, m) && IsRun(s, i, cl, n)
    ensures m == n
  {
  }

  /** The length of the longest run of class `cl` that starts at `i`. */
  function Span(s: string, i: nat, cl: Class): (n: nat)
    requires i <= |s|
    ensures IsRun(s, i, cl, n)
  {
    RunExists(s, i, cl);
    assert forall m: nat, n: nat | IsRun(s, i, cl, m) && IsRun(s, i, cl, n) :: m == n by {
      forall m: nat, n: nat | IsRun(s, i, cl, m) && IsRun(s, i, cl, n)
        ensures m == n
      {
        RunUnique(s, i, cl, m, n);
      }
    }
    var n: nat :| IsRun(s, i, cl, n);
    n
  }

  lemma SpanIs(s: string, i: nat, cl: Class, n: nat)
    requires IsRun(s, i, cl, n)
    ensures Span(s, i, cl) == n
  {
    RunUnique(s, i, cl, n, Span(s, i, cl));
  }

  // ---------------------------------------------------------------------
  // The regular expression

  /** `w` splits as letter, signs `w[1..i]`, digits `w[i..j]` (at least one),
      dots `w[j..k]` and digits `w[k..]`: the language of the captured group. */
  predicate WordSplit(w: string, i: nat, j: nat, k: nat) {
    && 1 <= i < j <= k <= |w|
    && IsLetter(w[0])
    && AllIn(w, 1, i, Sign)
    && AllIn(w, i, j, Digit)
    && AllIn(w, j, k, Dot)
    && AllIn(w, k, |w|, Digit)
  }

  ghost predicate IsWord(w: string) {
    exists i: nat, j: nat, k: nat :: WordSplit(w, i, j, k)
  }

  /** A match of the expression at the start of a text: the captured word is
      the text up to `wordEnd`, the whole match, trailing `\s*` included, is
      the text up to `length`. */
  datatype Match = Match(wordEnd: nat, length: nat)

  /** The match at the start of `s`, found greedily. The character classes
      letter, sign, digit, dot, digit, space follow each other pairwise
      disjoint and every part after the first digits may be empty, so the
      greedy choice is the one a leftmost-first engine such as Go's regexp
      makes. */
  function MatchAt(s: string): (r: Option<Match>)
    ensures r.Some? ==> 2 <= r.value.wordEnd <= r.value.length <= |s|
  {
    if s == [] || !IsLetter(s[0]) then None
    else
      var a := 1 + Span(s, 1, Sign);
      var b := a + Span(s, a, Digit);
      if b == a then None
      else
        var c := b + Span(s, b, Dot);
        var d := c + Span(s, c, Digit);
        Some(Match(d, d + Span(s, d, RegexSpace)))
  }

  /** MatchAt at a text that starts with the word `s[..d]` (letter, signs up
      to `a`, digits up to `b`, dots up to `c`, digits up to `d`) followed by
      `\s` characters up to `e`, each part as long as it can be. */
  lemma MatchAtWord(s: string, a: nat, b: nat, c: nat, d: nat, e: nat)
    requires s != [] && IsLetter(s[0]) && 1 <= a < b <= c <= d <= e
    requires IsRun(s, 1, Sign, a - 1)
    requires IsRun(s, a, Digit, b - a)
    requires IsRun(s, b, Dot, c - b)
    requires IsRun(s, c, Digit, d - c)
    requires IsRun(s, d, RegexSpace, e - d)
    ensures MatchAt(s) == Some(Match(d, e))
  {
    SpanIs(s, 1, Sign, a - 1);
    SpanIs(s, a, Digit, b - a);
    SpanIs(s, b, Dot, c - b);
    SpanIs(s, c, Digit, d - c);
    SpanIs(s, d, RegexSpace, e - d);
  }

  /** What MatchAt finds is a word of the expression, no longer prefix of
      the text is one, and the rest of the match is `\s` characters. */
  lemma MatchAtLongest(s: string)
    requires MatchAt(s).Some?
    ensures IsWord(s[..MatchAt(s).value.wordEnd])
    ensures forall n :: MatchAt(s).value.wordEnd < n <= |s| ==> !IsWord(s[..n])
    ensures AllIn(s, MatchAt(s).value.wordEnd, MatchAt(s).value.length, RegexSpace)
  {
    var a := 1 + Span(s, 1, Sign);
    var b := a + Span(s, a, Digit);
    var c := b + Span(s, b, Dot);
    var d := MatchAt(s).value.wordEnd;
    assert WordSplit(s[..d], a, b, c);
    forall n | d < n <= |s|
      ensures !IsWord(s[..n])
    {
      forall i: nat, j: nat, k: nat
        ensures !WordSplit(s[..n], i, j, k)
      {
        NoLongerSplit(s, n, i, j, k);
      }
    }
  }

  lemma NoLongerSplit(s: string, n: nat, i: nat, j: nat, k: nat)
    requires MatchAt(s).Some?
    requires MatchAt(s).value.wordEnd < n <= |s|
    ensures !WordSplit(s[..n], i, j, k)
  {
    var a := 1 + Span(s, 1, Sign);
    var b := a + Span(s, a, Digit);
    var c := b + Span(s, b, Dot);
    var d := c + Span(s, c, Digit);
    var w := s[..n];
    assert w[a] == s[a] && w[b] == s[b] && w[c] == s[c] && w[d] == s[d];
    assert i < n ==> w[i] == s[i];
    assert j < n ==> w[j] == s[j];
    assert k < n ==> w[k] == s[k];
  }

  lemma NoMatchNoSplit(s: string, n: nat, i: nat, j: nat, k: nat)
    requires MatchAt(s).None?
    requires n <= |s|
    ensures !WordSplit(s[..n], i, j, k)
  {
    var w := s[..n];
    assert 0 < n ==> w[0] == s[0];
    assert i < n ==> w[i] == s[i];
    if s != [] && IsLetter(s[0]) {
      var a := 1 + Span(s, 1, Sign);
      assert Span(s, a, Digit) == 0;
      assert a < n ==> In(Sign, w[a]) == In(Sign, s[a]) && In(Digit, w[a]) == In(Digit, s[a]);
      assert i < n ==> In(Digit, w[i]) == In(Digit, s[i]);
      assert 1 <= i < a ==> In(Sign, s[i]);
    }
  }

  /** When MatchAt finds nothing, no prefix of the text is a word. */
  lemma NoMatchNoWord(s: string)
    requires MatchAt(s).None?
    ensures forall n :: 0 <= n <= |s| ==> !IsWord(s[..n])
  {
    forall n, i: nat, j: nat, k: nat | 0 <= n <= |s|
      ensures !WordSplit(s[..n], i, j, k)
    {
      NoMatchNoSplit(s, n, i, j, k);
    }
  }

  // ---------------------------------------------------------------------
  // The rewrite and the split

  /** regexp.ReplaceAllString(s, `$1 `): every match, searched for left to
      right and never overlapping, is replaced by its word and one space;
      text between matches is copied. */
  function Separate(s: string): string
    decreases |s|
  {
    if s == [] then []
    else match MatchAt(s)
      case None => [s[0]] + Separate(s[1..])
      case Some(m) => s[..m.wordEnd] + " " + Separate(s[m.length..])
  }

  /** The non-space text of `s`, in order. */
  function Squeeze(s: string): string
    decreases |s|
  {
    if s == [] then [] else (if IsSpace(s[0]) then [] else [s[0]]) + Squeeze(s[1..])
  }

  function Flatten(ts: seq<string>): string
    decreases |ts|
  {
    if ts == [] then [] else ts[0] + Flatten(ts[1..])
  }

  /** strings.Fields: the maximal runs of non-space characters, in order. */
  function Fields(s: string): seq<string>
    decreases |s|
  {
    var i := Span(s, 0, Space);
    if i == |s| then []
    else
      assert In(NonSpace, s[i]);
      var j := i + Span(s, i, NonSpace);
      [s[i..j]] + Fields(s[j..])
  }

  /** What GCode hands to its queue: the fields of the rewritten text. */
  function Tokens(cmd: string): seq<string> {
    Fields(Separate(cmd))
  }

  /** Every field is a non-empty run without white space. */
  lemma {:induction false} FieldsShape(s: string)
    ensures forall k :: 0 <= k < |Fields(s)| ==> Fields(s)[k] != [] && NoSpace(Fields(s)[k])
    decreases |s|
  {
    var i := Span(s, 0, Space);
    if i < |s| {
      var j := i + Span(s, i, NonSpace);
      assert NoSpace(s[i..j]) by {
        forall k | 0 <= k < j - i
          ensures In(NonSpace, s[i..j][k])
        {
          assert s[i..j][k] == s[i + k];
        }
      }
      FieldsShape(s[j..]);
    }
  }

  lemma {:induction false} SqueezeAppend(a: string, b: string)
    ensures Squeeze(a + b) == Squeeze(a) + Squeeze(b)
    decreases |a|
  {
    if a == [] {
      assert a + b == b;
    } else {
      assert (a + b)[1..] == a[1..] + b;
      SqueezeAppend(a[1..], b);
    }
  }

  lemma {:induction false} SqueezeBlank(s: string)
    requires AllIn(s, 0, |s|, Space)
    ensures Squeeze(s) == []
    decreases |s|
  {
    if s != [] {
      assert In(Space, s[0]);
      assert AllIn(s[1..], 0, |s| - 1, Space) by {
        forall k | 0 <= k < |s| - 1
          ensures In(Space, s[1..][k])
        {
          assert s[1..][k] == s[k + 1];
        }
      }
      SqueezeBlank(s[1..]);
    }
  }

  lemma {:induction false} SqueezeNoSpace(s: string)
    requires NoSpace(s)
    ensures Squeeze(s) == s
    decreases |s|
  {
    if s != [] {
      assert In(NonSpace, s[0]);
      assert NoSpace(s[1..]) by {
        forall k | 0 <= k < |s| - 1
          ensures In(NonSpace, s[1..][k])
        {
          assert s[1..][k] == s[k + 1];
        }
      }
      SqueezeNoSpace(s[1..]);
      assert s == [s[0]] + s[1..];
    }
  }

  /** A slice of a run is a run. */
  lemma SliceIn(s: string, i: nat, j: nat, cl: Class)
    requires i <= j <= |s| && AllIn(s, i, j, cl)
    ensures AllIn(s[i..j], 0, j - i, cl)
  {
    forall k | 0 <= k < j - i
      ensures In(cl, s[i..j][k])
    {
      assert s[i..j][k] == s[i + k];
    }
  }

  /** A match contributes its word and nothing else to the non-space text,
      and so does the replacement. */
  lemma MatchText(s: string)
    requires MatchAt(s).Some?
    ensures Squeeze(s[..MatchAt(s).value.length]) == s[..MatchAt(s).value.wordEnd]
    ensures Squeeze(s[..MatchAt(s).value.wordEnd] + " ") == s[..MatchAt(s).value.wordEnd]
  {
    var d, e := MatchAt(s).value.wordEnd, MatchAt(s).value.length;
    var w := s[..d];
    MatchAtLongest(s);
    var i: nat, j: nat, k: nat :| WordSplit(w, i, j, k);
    assert NoSpace(w) by {
      forall t | 0 <= t < d
        ensures In(NonSpace, w[t])
      {
        if t == 0 {
        } else if t < i {
          assert In(Sign, w[t]);
        } else if t < j {
          assert In(Digit, w[t]);
        } else if t < k {
          assert In(Dot, w[t]);
        } else {
          assert In(Digit, w[t]);
        }
      }
    }
    SqueezeNoSpace(w);
    assert AllIn(s, d, e, Space) by {
      forall t | d <= t < e
        ensures In(Space, s[t])
      {
        assert In(RegexSpace, s[t]);
      }
    }
    SliceIn(s, d, e, Space);
    SqueezeBlank(s[d..e]);
    assert s[..e] == w + s[d..e];
    SqueezeAppend(w, s[d..e]);
    assert In(Space, " "[0]);
    SqueezeBlank(" ");
    SqueezeAppend(w, " ");
  }

  /** The rewrite only inserts and removes white space: the non-space text
      is what it was. */
  lemma {:induction false} SeparateKeepsText(s: string)
    ensures Squeeze(Separate(s)) == Squeeze(s)
    decreases |s|
  {
    if s != [] {
      match MatchAt(s)
      case None =>
        SeparateKeepsText(s[1..]);
        SqueezeAppend([s[0]], Separate(s[1..]));
        SqueezeAppend([s[0]], s[1..]);
        assert s == [s[0]] + s[1..];
      case Some(m) =>
        var n := m.length;
        SeparateKeepsText(s[n..]);
        MatchText(s);
        SqueezeAppend(s[..m.wordEnd] + " ", Separate(s[n..]));
        assert s == s[..n] + s[n..];
        SqueezeAppend(s[..n], s[n..]);
    }
  }

  /** One step of strings.Fields: skip the leading spaces, take one field. */
  lemma FieldsStep(s: string, i: nat, j: nat)
    requires i == Span(s, 0, Space) < |s|
    requires j == i + Span(s, i, NonSpace)
    ensures Fields(s) == [s[i..j]] + Fields(s[j..])
  {
  }

  lemma FlattenCons(t: string, ts: seq<string>)
    ensures Flatten([t] + ts) == t + Flatten(ts)
  {
    assert ([t] + ts)[1..] == ts;
  }

  /** Blanks, then text without spaces, then anything: the non-space text
      is the middle part followed by that of the rest. */
  lemma SqueezeParts(a: string, b: string, c: string)
    requires AllIn(a, 0, |a|, Space) && NoSpace(b)
    ensures Squeeze(a + b + c) == b + Squeeze(c)
  {
    var ab := a + b;
    SqueezeAppend(ab, c);
    assert Squeeze(ab + c) == Squeeze(ab) + Squeeze(c);
    SqueezeAppend(a, b);
    assert Squeeze(ab) == Squeeze(a) + Squeeze(b);
    SqueezeBlank(a);
    SqueezeNoSpace(b);
    assert Squeeze(ab) == b;
  }

  /** The same step seen on the non-space text. */
  lemma SqueezeStep(s: string, i: nat, j: nat)
    requires i == Span(s, 0, Space) < |s|
    requires j == i + Span(s, i, NonSpace)
    ensures Squeeze(s) == s[i..j] + Squeeze(s[j..])
  {
    SliceIn(s, 0, i, Space);
    SliceIn(s, i, j, NonSpace);
    assert s == s[..i] + s[i..j] + s[j..];
    SqueezeParts(s[..i], s[i..j], s[j..]);
  }

  /** strings.Fields loses no non-space character. */
  lemma {:induction false} FieldsKeepText(s: string)
    ensures Flatten(Fields(s)) == Squeeze(s)
    decreases |s|
  {
    var i := Span(s, 0, Space);
    if i < |s| {
      var j := i + Span(s, i, NonSpace);
      FieldsStep(s, i, j);
      FlattenCons(s[i..j], Fields(s[j..]));
      SqueezeStep(s, i, j);
      FieldsKeepText(s[j..]);
    } else {
      SliceIn(s, 0, i, Space);
      assert s[..i] == s;
      SqueezeBlank(s);
    }
  }

  /** The tokens GCode queues are, joined together, the command's non-space text. */
  lemma TokensKeepText(cmd: string)
    ensures Flatten(Tokens(cmd)) == Squeeze(cmd)
  {
    FieldsKeepText(Separate(cmd));
    SeparateKeepsText(cmd);
  }

  // ---------------------------------------------------------------------
  // Words joined by spaces

  /** The words, each followed by one space: what the rewrite produces from
      a command made only of words. */
  function Spaced(ws: seq<string>): string
    decreases |ws|
  {
    if ws == [] then [] else ws[0] + " " + Spaced(ws[1..])
  }

  /** A rewrite step at a word: the word, one space, then the rest rewritten. */
  lemma SeparateWord(s: string, ws: seq<string>, d: nat, e: nat)
    requires ws != [] && MatchAt(s) == Some(Match(d, e))
    requires s[..d] == ws[0] && Separate(s[e..]) == Spaced(ws[1..])
    ensures Separate(s) == Spaced(ws)
  {
  }

  /** strings.Fields at a text whose first field is `s[i..j]`. */
  lemma FieldsAt(s: string, i: nat, j: nat)
    requires i < j && IsRun(s, 0, Space, i) && IsRun(s, i, NonSpace, j - i)
    ensures Fields(s) == [s[i..j]] + Fields(s[j..])
  {
    SpanIs(s, 0, Space, i);
    SpanIs(s, i, NonSpace, j - i);
  }

  lemma FieldsOfBlank(s: string)
    requires AllIn(s, 0, |s|, Space)
    ensures Fields(s) == []
  {
    SpanIs(s, 0, Space, |s|);
  }

  /** strings.Fields takes words joined by spaces, after any blank prefix,
      back apart into the same words. */
  lemma {:induction false} FieldsOfSpaced(pad: string, ws: seq<string>)
    requires AllIn(pad, 0, |pad|, Space)
    requires forall k :: 0 <= k < |ws| ==> ws[k] != [] && NoSpace(ws[k])
    ensures Fields(pad + Spaced(ws)) == ws
    decreases |ws|
  {
    var s := pad + Spaced(ws);
    if ws == [] {
      assert s == pad;
      FieldsOfBlank(s);
    } else {
      var w, rest := ws[0], Spaced(ws[1..]);
      var p, q := |pad|, |pad| + |ws[0]|;
      assert s == pad + w + (" " + rest);
      assert AllIn(s, 0, p, Space) by {
        forall k | 0 <= k < p
          ensures In(Space, s[k])
        {
          assert s[k] == pad[k];
        }
      }
      assert In(NonSpace, w[0]) && s[p] == w[0];
      assert AllIn(s, p, q, NonSpace) by {
        forall k | p <= k < q
          ensures In(NonSpace, s[k])
        {
          assert s[k] == w[k - p];
        }
      }
      assert s[q] == ' ';
      FieldsAt(s, p, q);
      assert s[p..q] == w;
      assert s[q..] == " " + rest;
      assert AllIn(" ", 0, 1, Space);
      FieldsOfSpaced(" ", ws[1..]);
      assert ws == [w] + ws[1..];
    }
  }

  /** A command the rewrite turns into spaced words is queued as those words. */
  lemma TokensOfSpaced(cmd: string, ws: seq<string>)
    requires Separate(cmd) == Spaced(ws)
    requires forall k :: 0 <= k < |ws| ==> ws[k] != [] && NoSpace(ws[k])
    ensures Tokens(cmd) == ws
  {
    FieldsOfSpaced([], ws);
    assert [] + Spaced(ws) == Spaced(ws);
  }

  // ---------------------------------------------------------------------
  // Glued words

  /** A word starts with its only letter and holds no white space. */
  lemma WordShape(w: string)
    requires IsWord(w)
    ensures w != [] && IsLetter(w[0]) && NoSpace(w)
    ensures forall k :: 1 <= k < |w| ==> !IsLetter(w[k])
  {
    var i, j, k :| WordSplit(w, i, j, k);
    forall t | 0 <= t < |w|
      ensures In(NonSpace, w[t]) && (1 <= t ==> !IsLetter(w[t]))
    {
      if t == 0 {
      } else if t < i {
        assert In(Sign, w[t]);
      } else if t < j {
        assert In(Digit, w[t]);
      } else if t < k {
        assert In(Dot, w[t]);
      } else {
        assert In(Digit, w[t]);
      }
    }
  }

  /** A word followed directly by the next word's letter, or by nothing, is
      matched exactly: the match ends where the word ends. */
  lemma MatchAtGlued(w: string, rest: string)
    requires IsWord(w) && (rest == [] || IsLetter(rest[0]))
    ensures MatchAt(w + rest) == Some(Match(|w|, |w|))
  {
    var s := w + rest;
    assert s[..|w|] == w;
    if MatchAt(s).None? {
      NoMatchNoWord(s);
      assert false;
    }
    var m := MatchAt(s).value;
    MatchAtLongest(s);
    WordShape(s[..m.wordEnd]);
    assert forall k :: 1 <= k < m.wordEnd ==> s[..m.wordEnd][k] == s[k];
    if rest != [] {
      assert s[|w|] == rest[0];
      assert m.wordEnd < m.length ==> In(RegexSpace, s[m.wordEnd]);
    }
  }

  /** Words written one after another without separators come out of the
      rewrite one space apart. */
  lemma {:induction false} SeparateGlued(ws: seq<string>)
    requires forall k :: 0 <= k < |ws| ==> IsWord(ws[k])
    ensures Separate(Flatten(ws)) == Spaced(ws)
    decreases |ws|
  {
    if ws != [] {
      var w, rest := ws[0], Flatten(ws[1..]);
      var s := Flatten(ws);
      assert s == w + rest;
      if |ws| > 1 {
        WordShape(ws[1]);
        assert ws[1..][1..] == ws[2..];
        assert rest == ws[1] + Flatten(ws[2..]);
        assert rest[0] == ws[1][0];
      } else {
        assert ws[1..] == [];
      }
      MatchAtGlued(w, rest);
      SeparateGlued(ws[1..]);
      assert s[|w|..] == rest;
      assert s[..|w|] == w;
      SeparateWord(s, ws, |w|, |w|);
    }
  }

  /** The point of the rewrite: a command of words glued together, such as
      "M3S400", is split into exactly those words. */
  lemma GluedWords(ws: seq<string>)
    requires forall k :: 0 <= k < |ws| ==> IsWord(ws[k])
    ensures Tokens(Flatten(ws)) == ws
  {
    SeparateGlued(ws);
    forall k | 0 <= k < |ws|
      ensures ws[k] != [] && NoSpace(ws[k])
    {
      WordShape(ws[k]);
    }
    TokensOfSpaced(Flatten(ws), ws);
  }
}
