/**
 * The deterministic part of `generate_response` in app/slm_engine.py: the
 * chat prompt handed to the language model, and the post-processing that
 * turns whatever the model decoded into two or three clean bullet lines, or
 * into a fixed three-bullet fallback answer.
 */
module Formatter {
  import opened Wrappers
  import opened StringOps
  import opened Filtering

  // ---------------------------------------------------------------- prompt

  const SystemPrompt: string :=
    "You are a BFSI call center AI assistant.\n" +
    "Strict Rules:\n" +
    "- DO NOT define concepts. Focus ONLY on customer impact.\n" +
    "- NO paragraphs. Bullet points ONLY.\n" +
    "- Do NOT generate exact rates or numbers.\n" +
    "- If exact details are required, state that verification is required.\n" +
    "MANDATORY RESPONSE FORMAT:\n" +
    "- Point 1\n" +
    "- Point 2\n" +
    "- Point 3"

  /** The role marker that opens the assistant's turn. */
  const AssistantMarker: string := "<|assistant|>"

  /** Everything of the prompt that comes before the user's text. */
  const PromptHead: string := "<|system|>" + SystemPrompt + "\n\n<|user|>"

  /** The chat prompt for one user turn, in TinyLlama's role-tag format. */
  function Prompt(userText: string): (prompt: string)
    ensures prompt == PromptHead + userText + "\n\n" + AssistantMarker + "\n"
    ensures StartsWith(prompt, "<|system|>" + SystemPrompt)
    ensures prompt[|PromptHead|..|PromptHead| + |userText|] == userText
  {
    "<|system|>" + SystemPrompt + "\n\n<|user|>" + userText + "\n\n<|assistant|>\n"
  }

  // ---------------------------------------------------------------- constants of the formatter

  /** The UTF-8 bytes of the bullet sign read back as cp1252 text. */
  const Mojibake: string := ['\U{E2}', '\U{20AC}', '\U{A2}']

  /** Phrases that make a line read as contradicting or hedging the question. */
  const BadPhrases: seq<string> := ["no change", "decrease", "may not"]

  const MaxLineLength: nat := 140
  const MinBulletLength: nat := 5
  const MaxBullets: nat := 3
  const MinBullets: nat := 2

  /** The fixed answer given when too few usable bullets survive. */
  const Fallback: string :=
    "- An increase in interest rate may raise your monthly EMI.\n" +
    "- The impact depends on loan tenure and outstanding balance.\n" +
    "- Exact changes require verification with the bank."

  // ---------------------------------------------------------------- the pipeline as functions

  /** Only the stripped text after the last assistant marker, when there is one. */
  function AfterEcho(decoded: string): string {
    if Contains(decoded, AssistantMarker) then
      var parts := Split(decoded, AssistantMarker);
      Strip(parts[|parts| - 1])
    else decoded
  }

  /** The text with mojibake bullets turned into dashes, cut at every newline. */
  function Lines(text: string): seq<string> {
    Split(Replace(text, Mojibake, "-"), "\n")
  }

  predicate IsBulletStart(line: string) {
    StartsWith(line, "-") || StartsWith(line, "*")
  }

  /** The numbering artefacts replaced by a bare dash, in the order the source applies them. */
  function StripNumbering(line: string): string {
    var line := Replace(Replace(Replace(line, "- 1.", "-"), "- 2.", "-"), "- 3.", "-");
    Replace(Replace(line, "-1.", "-"), "-2.", "-")
  }

  /** A leading `*` becomes `-`. */
  function StandardizeBullet(line: string): string {
    if StartsWith(line, "*") then "-" + line[1..] else line
  }

  /** The bullet as it stands when the phrase check runs: stripped, renumbered, dash-led. */
  function Standardized(raw: string): string {
    StandardizeBullet(StripNumbering(Strip(raw)))
  }

  predicate HasBadPhrase(line: string) {
    ContainsAny(Lower(line), BadPhrases)
  }

  /** A line over the length limit is cut to its first 140 characters, at their last period. */
  function Shorten(line: string): string {
    if |line| > MaxLineLength then BeforeLast(line[..MaxLineLength], '.') + "." else line
  }

  /** What one raw line contributes: the cleaned bullet, or nothing. */
  function CleanLine(raw: string): Option<string> {
    if !IsBulletStart(Strip(raw)) then None
    else
      var line := Standardized(raw);
      if HasBadPhrase(line) then None
      else
        var line := Shorten(line);
        if |Strip(line)| > MinBulletLength then Some(Strip(line)) else None
  }

  /** What each line becomes, line by line. */
  function Cleaned(lines: seq<string>): (opts: seq<Option<string>>)
    ensures |opts| == |lines|
  {
    seq(|lines|, n requires 0 <= n < |lines| => CleanLine(lines[n]))
  }

  /** Line `n` becomes exactly what `CleanLine` makes of it. */
  lemma CleanedAt(lines: seq<string>, n: nat)
    requires n < |lines|
    ensures Cleaned(lines)[n] == CleanLine(lines[n])
  {
  }

  /** The first three bullets that survive cleaning, in the order of their lines. */
  function FirstBullets(lines: seq<string>): seq<string> {
    var all := Somes(Cleaned(lines));
    if |all| <= MaxBullets then all else all[..MaxBullets]
  }

  /** The bullets kept from the echo-free text. */
  function Bullets(text: string): seq<string> {
    FirstBullets(Lines(text))
  }

  /** The answer made of the kept bullets: the fallback when fewer than two. */
  function Present(bullets: seq<string>): string {
    if |bullets| < MinBullets then Fallback else Join(bullets, "\n")
  }

  /** The formatted answer for a decoded model output. */
  function Format(decoded: string): string {
    Present(Bullets(AfterEcho(decoded)))
  }

  // ---------------------------------------------------------------- the shape of the output

  /** A line the formatter may emit. */
  predicate WellFormedBullet(b: string) {
    MinBulletLength < |b| <= MaxLineLength + 1 && b[0] == '-' && IsStripped(b) &&
    !HasBadPhrase(b) && '\n' !in b
  }

  /** Two or three well-formed bullet lines separated by newlines. */
  predicate IsBulletBlock(out: string) {
    var lines := Split(out, "\n");
    MinBullets <= |lines| <= MaxBullets && forall l :: l in lines ==> WellFormedBullet(l)
  }

  // ---------------------------------------------------------------- the imperative formatter

  /**
   * `generate_response`: prompt the model with the user's text and format
   * what it decodes.
   */
  method GenerateResponse(userText: string, decode: string -> string) returns (response: string)
    ensures response == Format(decode(Prompt(userText)))
    ensures response == Fallback || IsBulletBlock(response)
  {
    var prompt := Prompt(userText);
    var decoded := decode(prompt);
    response := FormatDecoded(decoded);
    FormatShape(decoded);
  }

  /**
   * The post-processing of `generate_response`: drop the prompt echo, keep
   * the first three usable bullets, or answer with the fallback.
   */
  method FormatDecoded(decoded: string) returns (response: string)
    ensures response == Format(decoded)
  {
    var text := RemoveEcho(decoded);
    var lines := Split(Replace(text, Mojibake, "-"), "\n");
    var cleanBullets := KeepBullets(lines);
    assert cleanBullets == Somes(Cleaned(lines));

    if |cleanBullets| > MaxBullets {
      cleanBullets := cleanBullets[..MaxBullets];
    }
    assert cleanBullets == Bullets(text);
    if |cleanBullets| < MinBullets {
      response := Fallback;
    } else {
      response := Join(cleanBullets, "\n");
    }
  }

  /** Everything up to the last assistant marker is the prompt echoed back: drop it. */
  method RemoveEcho(decoded: string) returns (text: string)
    ensures text == AfterEcho(decoded)
  {
    text := decoded;
    if Contains(text, AssistantMarker) {
      var parts := Split(text, AssistantMarker);
      text := Strip(parts[|parts| - 1]);
    }
  }

  /** The loop of `generate_response`: clean every line and keep the survivors, in order. */
  method KeepBullets(lines: seq<string>) returns (cleanBullets: seq<string>)
    ensures cleanBullets == Somes(Cleaned(lines))
  {
    cleanBullets := [];
    for i := 0 to |lines|
      invariant cleanBullets == Somes(Cleaned(lines)[..i])
    {
      var bullet := CleanRawLine(lines[i]);
      SomesPrefixStep(Cleaned(lines), i);
      CleanedAt(lines, i);
      if bullet.Some? {
        cleanBullets := cleanBullets + [bullet.value];
      }
    }
    assert Cleaned(lines)[..|lines|] == Cleaned(lines);
  }

  /** The body of that loop for one line: `None` where the loop moves on to the next line. */
  method CleanRawLine(raw: string) returns (bullet: Option<string>)
    ensures bullet == CleanLine(raw)
  {
    bullet := None;
    var line := Strip(raw);
    if StartsWith(line, "-") || StartsWith(line, "*") {
      line := Replace(Replace(Replace(line, "- 1.", "-"), "- 2.", "-"), "- 3.", "-");
      line := Replace(Replace(line, "-1.", "-"), "-2.", "-");
      if StartsWith(line, "*") {
        line := "-" + line[1..];
      }
      assert line == Standardized(raw);
      var lower := Lower(line);
      if !ContainsAny(lower, BadPhrases) {
        if |line| > MaxLineLength {
          line := BeforeLast(line[..MaxLineLength], '.') + ".";
        }
        assert line == Shorten(Standardized(raw));
        if |Strip(line)| > MinBulletLength {
          bullet := Some(Strip(line));
        }
      }
    }
  }

  // ---------------------------------------------------------------- lemmas

  /** No bad phrase in a line means none in any prefix of it. */
  lemma NoBadPhraseInPrefix(s: string, k: nat)
    requires k <= |s| && !HasBadPhrase(s)
    ensures !HasBadPhrase(s[..k])
  {
    LowerPrefix(s, k);
    forall j | 0 <= j < |BadPhrases|
      ensures !Contains(Lower(s[..k]), BadPhrases[j])
    {
      if Contains(Lower(s[..k]), BadPhrases[j]) {
        ContainsInfix(Lower(s), 0, k, BadPhrases[j]);
      }
    }
  }

  /** The period re-appended by the truncation cannot complete a bad phrase. */
  lemma NoBadPhraseWithPeriod(s: string)
    requires !HasBadPhrase(s)
    ensures !HasBadPhrase(s + ".")
  {
    LowerAppend(s, ".");
    assert Lower(".") == ".";
    forall j | 0 <= j < |BadPhrases|
      ensures !Contains(Lower(s + "."), BadPhrases[j])
    {
      if Contains(Lower(s) + ['.'], BadPhrases[j]) {
        ContainsAppendChar(Lower(s), '.', BadPhrases[j]);
      }
    }
  }

  /**
   * Truncation keeps the first 140 characters up to their last period and
   * puts a period back; without a period it keeps all 140 and adds one.
   */
  lemma ShortenAtLastPeriod(line: string)
    ensures |line| <= MaxLineLength ==> Shorten(line) == line
    ensures |line| > MaxLineLength && '.' !in line[..MaxLineLength] ==>
              Shorten(line) == line[..MaxLineLength] + "."
    ensures |line| > MaxLineLength && '.' in line[..MaxLineLength] ==>
              exists k :: 0 <= k < MaxLineLength && line[k] == '.' &&
                          '.' !in line[k + 1..MaxLineLength] && Shorten(line) == line[..k] + "."
  {
    if |line| > MaxLineLength && '.' in line[..MaxLineLength] {
      var head := BeforeLast(line[..MaxLineLength], '.');
      var k := |head|;
      assert line[..MaxLineLength][k + 1..] == line[k + 1..MaxLineLength];
      assert head == line[..k];
    }
  }

  /** Truncation keeps a dash-led, phrase-free, single line so, and bounds its length. */
  lemma ShortenShape(line: string)
    requires line != [] && line[0] == '-' && !HasBadPhrase(line) && '\n' !in line
    ensures var r := Shorten(line);
      r != [] && r[0] == '-' && |r| <= MaxLineLength + 1 && !HasBadPhrase(r) && '\n' !in r
  {
    if |line| > MaxLineLength {
      var cut := line[..MaxLineLength];
      var head := BeforeLast(cut, '.');
      assert head == line[..|head|];
      if '.' in cut {
        assert cut[|head|] == '.';
        assert |head| > 0;
      }
      NoBadPhraseInPrefix(line, |head|);
      NoBadPhraseWithPeriod(head);
      assert '\n' !in head;
    }
  }

  /** Every bullet the per-line pipeline emits is well formed. */
  lemma {:induction false} CleanLineShape(raw: string)
    requires '\n' !in raw
    ensures CleanLine(raw).Some? ==> WellFormedBullet(CleanLine(raw).value)
  {
    var line1 := Strip(raw);
    if IsBulletStart(line1) {
      StripKeepsChars(raw, '\n');
      var a := Replace(line1, "- 1.", "-");
      ReplaceKeepsHead(line1, "- 1.", "-");
      ReplaceKeepsOut(line1, "- 1.", "-", '\n');
      var b := Replace(a, "- 2.", "-");
      ReplaceKeepsHead(a, "- 2.", "-");
      ReplaceKeepsOut(a, "- 2.", "-", '\n');
      var c := Replace(b, "- 3.", "-");
      ReplaceKeepsHead(b, "- 3.", "-");
      ReplaceKeepsOut(b, "- 3.", "-", '\n');
      var d := Replace(c, "-1.", "-");
      ReplaceKeepsHead(c, "-1.", "-");
      ReplaceKeepsOut(c, "-1.", "-", '\n');
      var e := Replace(d, "-2.", "-");
      ReplaceKeepsHead(d, "-2.", "-");
      ReplaceKeepsOut(d, "-2.", "-", '\n');
      assert e == StripNumbering(line1);
      var line3 := StandardizeBullet(e);
      assert line3 == Standardized(raw);
      assert line3 != [] && line3[0] == '-' && '\n' !in line3;
      if !HasBadPhrase(line3) {
        ShortenShape(line3);
        var line4 := Shorten(line3);
        StripNonSpaceStart(line4);
        var bullet := Strip(line4);
        if |bullet| > MinBulletLength {
          NoBadPhraseInPrefix(line4, |bullet|);
          assert bullet == line4[..|bullet|];
        }
      }
    }
  }

  /** A line is dropped when its phrase check fires, wherever the phrase sits, even past the cut. */
  lemma BadPhraseDropsLine(raw: string, j: nat, at: nat)
    requires j < |BadPhrases|
    requires at + |BadPhrases[j]| <= |Standardized(raw)|
    requires Lower(Standardized(raw))[at..at + |BadPhrases[j]|] == BadPhrases[j]
    ensures CleanLine(raw) == None
  {
    ContainsAt(Lower(Standardized(raw)), BadPhrases[j], at);
  }

  /** A line that does not start with a dash or an asterisk once stripped never reaches the output. */
  lemma ProseDropped(raw: string)
    requires !StartsWith(Strip(raw), "-") && !StartsWith(Strip(raw), "*")
    ensures CleanLine(raw) == None
  {
  }

  /** The pieces the text is cut into hold no newline. */
  lemma LinesAreSingle(text: string)
    ensures forall l :: l in Lines(text) ==> '\n' !in l
  {
    var t := Replace(text, Mojibake, "-");
    SplitPiecesFree(t, "\n");
    forall l | l in Lines(text) ensures '\n' !in l {
      ContainsChar(l, '\n');
    }
  }

  /**
   * The kept bullets are at most three, each well formed; presented, they are
   * the fallback when fewer than two, and otherwise exactly the output's lines.
   */
  lemma BulletsShape(text: string)
    ensures forall b :: b in Bullets(text) ==> WellFormedBullet(b)
    ensures |Bullets(text)| <= MaxBullets
    ensures |Bullets(text)| < MinBullets ==> Present(Bullets(text)) == Fallback
    ensures |Bullets(text)| >= MinBullets ==>
              Present(Bullets(text)) == Join(Bullets(text), "\n") &&
              Split(Join(Bullets(text), "\n"), "\n") == Bullets(text)
  {
    var lines := Lines(text);
    var all := Somes(Cleaned(lines));
    var bullets := Bullets(text);
    LinesAreSingle(text);
    SurvivorsWellFormed(lines);
    assert forall k :: 0 <= k < |bullets| ==> bullets[k] == all[k];
    assert forall b :: b in bullets ==> b in all;
    if |bullets| >= MinBullets {
      BulletsSplitBack(bullets);
    }
  }

  /** Every bullet that survives cleaning, from lines without newlines, is well formed. */
  lemma SurvivorsWellFormed(lines: seq<string>)
    requires forall l :: l in lines ==> '\n' !in l
    ensures forall b :: b in Somes(Cleaned(lines)) ==> WellFormedBullet(b)
  {
    forall b | b in Somes(Cleaned(lines))
      ensures WellFormedBullet(b)
    {
      var n := SomeOrigin(Cleaned(lines), b);
      assert lines[n] in lines;
      CleanLineShape(lines[n]);
    }
  }

  /** Well-formed bullets joined by newlines split back into themselves. */
  lemma BulletsSplitBack(bullets: seq<string>)
    requires |bullets| >= 1 && forall k :: 0 <= k < |bullets| ==> WellFormedBullet(bullets[k])
    ensures Split(Join(bullets, "\n"), "\n") == bullets
  {
    SplitJoin(bullets, '\n');
  }

  /** The formatted answer is the fallback or two or three well-formed bullet lines. */
  lemma FormatShape(decoded: string)
    ensures Format(decoded) == Fallback || IsBulletBlock(Format(decoded))
  {
    BulletsShape(AfterEcho(decoded));
  }

  /**
   * The bullets are the first surviving lines in input order: each comes from
   * its own line, later bullets from later lines, and no surviving line before
   * the last bullet's line (any surviving line, if fewer than three) was skipped.
   */
  lemma BulletsInOrder(lines: seq<string>)
    ensures var opts := Cleaned(lines);
      var idx := Positions(opts);
      var bullets := FirstBullets(lines);
      (forall j :: 0 <= j < |bullets| ==> idx[j] < |lines| && opts[idx[j]] == Some(bullets[j])) &&
      (forall j, k :: 0 <= j < k < |bullets| ==> idx[j] < idx[k]) &&
      (|bullets| < MaxBullets ==>
        forall n :: 0 <= n < |lines| && opts[n].Some? ==> n in idx[..|bullets|]) &&
      (|bullets| == MaxBullets ==>
        forall n :: 0 <= n <= idx[MaxBullets - 1] && opts[n].Some? ==> n in idx[..MaxBullets])
  {
    var opts := Cleaned(lines);
    PositionsCover(opts);
    if |FirstBullets(lines)| == MaxBullets {
      FirstPositions(opts, MaxBullets);
    }
  }

  /**
   * When the decoded text holds the assistant marker, nothing before its last
   * occurrence reaches the output: only the stripped rest is formatted.
   */
  lemma EchoDiscarded(before: string, rest: string)
    requires !Contains(rest, AssistantMarker)
    ensures Format(before + AssistantMarker + rest) == Format(Strip(rest))
  {
    TextAfterLastMarker(before, rest);
    StripKeepsOut(rest, AssistantMarker);
    assert AfterEcho(Strip(rest)) == Strip(rest);
  }

  /** The echo-free text is the stripped text after the last marker. */
  lemma TextAfterLastMarker(before: string, rest: string)
    requires !Contains(rest, AssistantMarker)
    ensures AfterEcho(before + AssistantMarker + rest) == Strip(rest)
  {
    var s := before + AssistantMarker + rest;
    assert s[|before|..|before| + |AssistantMarker|] == AssistantMarker;
    ContainsAt(s, AssistantMarker, |before|);
    MarkerDoesNotOverlap();
    SplitLastPiece(before, AssistantMarker, rest);
  }

  /**
   * The echoed prompt, the user's text included, never reaches the output:
   * when the model returns the prompt followed by a completion free of the
   * marker, only the completion is formatted.
   */
  lemma PromptEchoDiscarded(userText: string, completion: string)
    requires !Contains(completion, AssistantMarker)
    ensures Format(Prompt(userText) + completion) == Format(Strip(completion))
  {
    PromptEchoText(userText, completion);
    StripKeepsOut(completion, AssistantMarker);
    assert AfterEcho(Strip(completion)) == Strip(completion);
  }

  /** The echo-free text of an echoed prompt plus a completion is the stripped completion. */
  lemma PromptEchoText(userText: string, completion: string)
    requires !Contains(completion, AssistantMarker)
    ensures AfterEcho(Prompt(userText) + completion) == Strip(completion)
  {
    var rest := "\n" + completion;
    assert Prompt(userText) + completion ==
           PromptHead + userText + "\n\n" + AssistantMarker + rest;
    assert rest[1..] == completion;
    if |rest| >= |AssistantMarker| {
      assert rest[..|AssistantMarker|][0] != AssistantMarker[0];
    }
    assert !Contains(rest, AssistantMarker);
    TextAfterLastMarker(PromptHead + userText + "\n\n", rest);
    TrimStartSpace('\n', completion);
  }

  /** The assistant marker cannot overlap itself: its first character does not recur in it. */
  lemma MarkerDoesNotOverlap()
    ensures forall j :: 0 < j < |AssistantMarker| ==> AssistantMarker[j] != AssistantMarker[0]
  {
    forall j | 0 < j < |AssistantMarker|
      ensures AssistantMarker[j] != AssistantMarker[0]
    {
      assert j in {1, 2, 3, 4, 5, 6, 7, 8, 9, 10, 11, 12};
    }
  }

  /** A line holding none of the five numbering patterns is left as it is. */
  lemma NumberingAbsentUnchanged(line: string)
    requires !Contains(line, "- 1.") && !Contains(line, "- 2.") && !Contains(line, "- 3.")
    requires !Contains(line, "-1.") && !Contains(line, "-2.")
    ensures StripNumbering(line) == line
  {
    ReplaceAbsent(line, "- 1.", "-");
    ReplaceAbsent(line, "- 2.", "-");
    ReplaceAbsent(line, "- 3.", "-");
    ReplaceAbsent(line, "-1.", "-");
    ReplaceAbsent(line, "-2.", "-");
  }

  /** `- 1.` at the head of a line becomes a bare dash; `-3.` is not one of the patterns. */
  lemma NumberingExamples()
    ensures StripNumbering("- 1. a") == "- a"
    ensures StripNumbering("-3. a") == "-3. a"
  {
    var s := "- 1. a";
    assert s[..4] == "- 1." && s[4..] == " a";
    ReplaceAbsent(" a", "- 1.", "-");
    var t := Replace(s, "- 1.", "-");
    assert t == "- a";
    MissingCharNotContained(t, "-1.", '1');
    MissingCharNotContained(t, "-2.", '2');
    NumberingAbsentUnchanged(t);
    assert Replace(Replace(t, "- 2.", "-"), "- 3.", "-") == t;

    var u := "-3. a";
    MissingCharNotContained(u, "- 1.", '1');
    MissingCharNotContained(u, "- 2.", '2');
    MissingCharNotContained(u, "-1.", '1');
    MissingCharNotContained(u, "-2.", '2');
    assert u[..4][1] != "- 3."[1];
    assert u[1..][..4][0] != "- 3."[0];
    assert |u[2..]| < 4;
    NumberingAbsentUnchanged(u);
  }
}
