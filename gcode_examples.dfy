/** The examples of GCode's documentation, worked through the model of the
    preprocessor: glued words come apart into one token each. */
module GcodeExamples {
  import opened Wrappers
  import opened Gcode

  lemma WordM3S400(s: string)
    requires s == "M3S400"
    ensures MatchAt(s) == Some(Match(2, 2)) && s[..2] == "M3" && s[2..] == "S400"
  {
    MatchAtWord(s, 1, 2, 2, 2, 2);
  }

  lemma WordS400(s: string)
    requires s == "S400"
    ensures MatchAt(s) == Some(Match(4, 4)) && s[..4] == "S400" && s[4..] == ""
  {
    MatchAtWord(s, 1, 4, 4, 4, 4);
  }

  /** `M3S400` is queued as `M3` and `S400`. */
  lemma GluedExample(cmd: string)
    requires cmd == "M3S400"
    ensures Tokens(cmd) == ["M3", "S400"]
  {
    var ws := ["M3", "S400"];
    WordM3S400(cmd);
    WordS400(cmd[2..]);
    SeparateWord(cmd[2..], ws[1..], 4, 4);
    SeparateWord(cmd, ws, 2, 2);
    TokensOfSpaced(cmd, ws);
  }
  lemma WordN12(s: string)
    requires s == "N12S20 F200M3 G28.3Z-100 Y-29.3"
    ensures MatchAt(s) == Some(Match(3, 3)) && s[..3] == "N12" && s[3..] == "S20 F200M3 G28.3Z-100 Y-29.3"
  {
    MatchAtWord(s, 1, 3, 3, 3, 3);
  }

  lemma WordS20(s: string)
    requires s == "S20 F200M3 G28.3Z-100 Y-29.3"
    ensures MatchAt(s) == Some(Match(3, 4)) && s[..3] == "S20" && s[4..] == "F200M3 G28.3Z-100 Y-29.3"
  {
    MatchAtWord(s, 1, 3, 3, 3, 4);
  }

  lemma WordF200(s: string)
    requires s == "F200M3 G28.3Z-100 Y-29.3"
    ensures MatchAt(s) == Some(Match(4, 4)) && s[..4] == "F200" && s[4..] == "M3 G28.3Z-100 Y-29.3"
  {
    MatchAtWord(s, 1, 4, 4, 4, 4);
  }

  lemma WordM3(s: string)
    requires s == "M3 G28.3Z-100 Y-29.3"
    ensures MatchAt(s) == Some(Match(2, 3)) && s[..2] == "M3" && s[3..] == "G28.3Z-100 Y-29.3"
  {
    MatchAtWord(s, 1, 2, 2, 2, 3);
  }

  lemma WordG283(s: string)
    requires s == "G28.3Z-100 Y-29.3"
    ensures MatchAt(s) == Some(Match(5, 5)) && s[..5] == "G28.3" && s[5..] == "Z-100 Y-29.3"
  {
    MatchAtWord(s, 1, 3, 4, 5, 5);
  }

  lemma WordZ100(s: string)
    requires s == "Z-100 Y-29.3"
    ensures MatchAt(s) == Some(Match(5, 6)) && s[..5] == "Z-100" && s[6..] == "Y-29.3"
  {
    MatchAtWord(s, 2, 5, 5, 5, 6);
  }

  lemma WordY293(s: string)
    requires s == "Y-29.3"
    ensures MatchAt(s) == Some(Match(6, 6)) && s[..6] == "Y-29.3" && s[6..] == ""
  {
    MatchAtWord(s, 2, 4, 5, 6, 6);
  }

  /** The rewrite of the documented command: every word followed by one space. */
  lemma SeparatorRewrite(cmd: string)
    requires cmd == "N12S20 F200M3 G28.3Z-100 Y-29.3"
    ensures Separate(cmd) == Spaced(["N12", "S20", "F200", "M3", "G28.3", "Z-100", "Y-29.3"])
  {
    var ws := ["N12", "S20", "F200", "M3", "G28.3", "Z-100", "Y-29.3"];
    var s4 := cmd[3..][4..][4..][3..];
    LastThree(s4, ws[4..]);
    FirstFour(cmd, ws, s4);
  }

  lemma FirstFour(cmd: string, ws: seq<string>, s4: string)
    requires cmd == "N12S20 F200M3 G28.3Z-100 Y-29.3"
    requires ws == ["N12", "S20", "F200", "M3", "G28.3", "Z-100", "Y-29.3"]
    requires s4 == "G28.3Z-100 Y-29.3" && Separate(s4) == Spaced(ws[4..])
    ensures Separate(cmd) == Spaced(ws)
  {
    var s1 := cmd[3..];
    var s2 := s1[4..];
    var s3 := s2[4..];
    WordN12(cmd);
    WordS20(s1);
    WordF200(s2);
    WordM3(s3);
    assert s3[3..] == s4;
    SeparateWord(s3, ws[3..], 2, 3);
    SeparateWord(s2, ws[2..], 4, 4);
    SeparateWord(s1, ws[1..], 3, 4);
    SeparateWord(cmd, ws, 3, 3);
  }

  lemma LastThree(s4: string, ws: seq<string>)
    requires s4 == "G28.3Z-100 Y-29.3"
    requires ws == ["G28.3", "Z-100", "Y-29.3"]
    ensures Separate(s4) == Spaced(ws)
  {
    var s5 := s4[5..];
    var s6 := s5[6..];
    WordG283(s4);
    WordZ100(s5);
    WordY293(s6);
    assert s6[6..] == [];
    SeparateWord(s6, ws[2..], 6, 6);
    SeparateWord(s5, ws[1..], 5, 6);
    SeparateWord(s4, ws, 5, 5);
  }

  /** `N12S20 F200M3 G28.3Z-100 Y-29.3` is queued as seven tokens, one per word. */
  lemma SeparatorExample(cmd: string)
    requires cmd == "N12S20 F200M3 G28.3Z-100 Y-29.3"
    ensures Tokens(cmd) == ["N12", "S20", "F200", "M3", "G28.3", "Z-100", "Y-29.3"]
  {
    var ws := ["N12", "S20", "F200", "M3", "G28.3", "Z-100", "Y-29.3"];
    SeparatorRewrite(cmd);
    TokensOfSpaced(cmd, ws);
  }
}
