/**
 * The operator's answer in `ask_for_confirmation` (src/main.rs:45): the line
 * read from standard input is trimmed, lower-cased and compared with "y".
 */
module Confirmation {

  /** Rust's `char::is_whitespace`: the characters with the Unicode
      White_Space property. */
  predicate IsWhitespace(c: char) {
    ('\t' <= c <= '\r') || c == ' ' || c == '\U{85}' || c == '\U{A0}' || c == '\U{1680}' ||
    ('\U{2000}' <= c <= '\U{200A}') || c == '\U{2028}' || c == '\U{2029}' ||
    c == '\U{202F}' || c == '\U{205F}' || c == '\U{3000}'
  }

  predicate AllWhitespace(s: string) {
    forall i | 0 <= i < |s| :: IsWhitespace(s[i])
  }

  /** `trim_start`: drops the leading whitespace. */
  function TrimStart(s: string): string {
    if s != [] && IsWhitespace(s[0]) then TrimStart(s[1..]) else s
  }

  /** `trim_end`: drops the trailing whitespace. */
  function TrimEnd(s: string): string {
    if s != [] && IsWhitespace(s[|s| - 1]) then TrimEnd(s[..|s| - 1]) else s
  }

  /** `trim_start` keeps a suffix that does not start with whitespace, and
      what it drops is all whitespace. */
  lemma {:induction false} TrimStartSpec(s: string)
    ensures var r := TrimStart(s);
            && |r| <= |s| && r == s[|s| - |r|..]
            && AllWhitespace(s[..|s| - |r|])
            && (r != [] ==> !IsWhitespace(r[0]))
  {
    if s != [] && IsWhitespace(s[0]) {
      TrimStartSpec(s[1..]);
      var r := TrimStart(s);
      assert s[..|s| - |r|] == [s[0]] + s[1..][..|s| - 1 - |r|];
    }
  }

  /** `trim_end` keeps a prefix that does not end with whitespace, and what
      it drops is all whitespace. */
  lemma {:induction false} TrimEndSpec(s: string)
    ensures var r := TrimEnd(s);
            && |r| <= |s| && r == s[..|r|]
            && AllWhitespace(s[|r|..])
            && (r != [] ==> !IsWhitespace(r[|r| - 1]))
  {
    if s != [] && IsWhitespace(s[|s| - 1]) {
      TrimEndSpec(s[..|s| - 1]);
      var r := TrimEnd(s);
      assert s[|r|..] == s[..|s| - 1][|r|..] + [s[|s| - 1]];
    }
  }

  /** `str::trim`. */
  function Trim(s: string): string {
    TrimEnd(TrimStart(s))
  }

  /** `trim` keeps a slice that neither starts nor ends with whitespace,
      and what it drops on either side is all whitespace. */
  lemma TrimSpec(s: string) returns (i: nat)
    ensures var r := Trim(s);
            && i + |r| <= |s| && r == s[i..i + |r|]
            && AllWhitespace(s[..i]) && AllWhitespace(s[i + |r|..])
            && (r != [] ==> !IsWhitespace(r[0]) && !IsWhitespace(r[|r| - 1]))
  {
    var u := TrimStart(s);
    TrimStartSpec(s);
    i := |s| - |u|;
    var r := TrimEnd(u);
    TrimEndSpec(u);
    assert s[i + |r|..] == u[|r|..];
  }

  /** Lower-casing of ASCII letters; other characters are kept. */
  function ToLowerChar(c: char): char {
    if 'A' <= c <= 'Z' then (c as int + ('a' as int - 'A' as int)) as char else c
  }

  /** `to_lowercase` on ASCII: every upper-case letter becomes its
      lower-case letter, and every other character is kept in place. */
  function ToLower(s: string): (r: string)
    ensures |r| == |s|
    ensures forall i | 0 <= i < |r| :: !('A' <= r[i] <= 'Z')
    ensures forall i | 0 <= i < |s| ::
              if 'A' <= s[i] <= 'Z' then r[i] as int == s[i] as int + ('a' as int - 'A' as int) else r[i] == s[i]
  {
    seq(|s|, i requires 0 <= i < |s| => ToLowerChar(s[i]))
  }

  /** The answer counts as yes: `input.trim().to_lowercase() == "y"`. */
  predicate IsAffirmative(line: string)
    ensures IsAffirmative(line) <==> Trim(line) == "y" || Trim(line) == "Y"
  {
    ToLower(Trim(line)) == "y"
  }

  /** Leading whitespace up to the first other character is what `trim_start` drops. */
  lemma {:induction false} TrimStartAt(s: string, i: nat)
    requires i < |s| && AllWhitespace(s[..i]) && !IsWhitespace(s[i])
    ensures TrimStart(s) == s[i..]
  {
    if i == 0 {
      assert s[0..] == s;
    } else {
      assert IsWhitespace(s[..i][0]);
      assert s[1..][..i - 1] == s[..i][1..];
      TrimStartAt(s[1..], i - 1);
      assert s[1..][i - 1..] == s[i..];
    }
  }

  /** Trailing whitespace after the last other character is what `trim_end` drops. */
  lemma {:induction false} TrimEndAt(s: string, j: nat)
    requires 0 < j <= |s| && AllWhitespace(s[j..]) && !IsWhitespace(s[j - 1])
    ensures TrimEnd(s) == s[..j]
  {
    if j == |s| {
      assert s[..j] == s;
    } else {
      var n := |s| - 1;
      assert IsWhitespace(s[j..][n - j]);
      assert s[..n][j..] == s[j..][..n - j];
      TrimEndAt(s[..n], j);
      assert s[..n][..j] == s[..j];
    }
  }

  /** An affirmative line is one `y` or `Y` between whitespace. */
  lemma AffirmativeOnlyIf(line: string) returns (i: nat)
    requires IsAffirmative(line)
    ensures i < |line| && (line[i] == 'y' || line[i] == 'Y')
    ensures AllWhitespace(line[..i]) && AllWhitespace(line[i + 1..])
  {
    var u := TrimStart(line);
    TrimStartSpec(line);
    i := |line| - |u|;
    var t := TrimEnd(u);
    TrimEndSpec(u);
    assert |t| == 1;
    assert ToLower(t)[0] == ToLowerChar(t[0]) == 'y';
    assert t[0] == u[0] == line[i];
    assert line[i + 1..] == u[|t|..];
  }

  /** One `y` or `Y` between whitespace is affirmative. */
  lemma AffirmativeIf(line: string, i: nat)
    requires i < |line| && (line[i] == 'y' || line[i] == 'Y')
    requires AllWhitespace(line[..i]) && AllWhitespace(line[i + 1..])
    ensures IsAffirmative(line)
  {
    TrimStartAt(line, i);
    var u := line[i..];
    assert u[1..] == line[i + 1..];
    TrimEndAt(u, 1);
    assert Trim(line) == [line[i]];
    assert ToLower(Trim(line)) == [ToLowerChar(line[i])];
  }

  /** A line is affirmative exactly when it is one `y` or `Y` with nothing
      but whitespace before and after it. */
  lemma AffirmativeIff(line: string)
    ensures IsAffirmative(line) <==>
            exists i | 0 <= i < |line| ::
              (line[i] == 'y' || line[i] == 'Y') && AllWhitespace(line[..i]) && AllWhitespace(line[i + 1..])
  {
    if IsAffirmative(line) {
      var i := AffirmativeOnlyIf(line);
    }
    if exists i | 0 <= i < |line| ::
         (line[i] == 'y' || line[i] == 'Y') && AllWhitespace(line[..i]) && AllWhitespace(line[i + 1..]) {
      var i :| 0 <= i < |line| &&
               (line[i] == 'y' || line[i] == 'Y') && AllWhitespace(line[..i]) && AllWhitespace(line[i + 1..]);
      AffirmativeIf(line, i);
    }
  }

  /** Example: a padded upper-case `Y` is yes. */
  lemma PaddedUpperCaseIsAffirmative()
    ensures IsAffirmative(" Y \n")
  {
    var line := " Y \n";
    assert line[..1] == " " && line[2..] == " \n";
    AffirmativeIf(line, 1);
  }

  /** Examples: `yes`, `n` and the empty line (end of input) are no. */
  lemma OtherAnswersAreNegative()
    ensures !IsAffirmative("yes")
    ensures !IsAffirmative("n")
    ensures !IsAffirmative("")
  {
    AffirmativeIff("yes");
    forall i | 0 <= i < 3 && ("yes"[i] == 'y' || "yes"[i] == 'Y') ensures !AllWhitespace("yes"[i + 1..]) {
      assert i == 0;
      assert "yes"[1..][0] == 'e';
    }
    AffirmativeIff("n");
    AffirmativeIff("");
  }
}
