/** Signatures as text: the binder's printer, the checker's parser, and their round trip. */
module SignatureText {
  import opened Prelude

  /** A parameter with its annotation as rendered and its four kind flags. */
  datatype Param = Param(
    name: string,
    annotation: Option<string>,
    hasDefault: bool,
    positionalOnly: bool,
    keywordOnly: bool,
    variadic: bool,
    keywordVariadic: bool
  )

  /** What the parser recovers; a missing annotation is the empty text. */
  datatype ParsedParam = ParsedParam(
    name: string,
    annotation: string,
    hasDefault: bool,
    positionalOnly: bool,
    keywordOnly: bool,
    variadic: bool,
    keywordVariadic: bool
  )

  function Recovered(p: Param): ParsedParam {
    ParsedParam(p.name, match p.annotation case Some(text) => text case None => "",
                p.hasDefault, p.positionalOnly, p.keywordOnly, p.variadic, p.keywordVariadic)
  }

  // ---------------------------------------------------------------------------------------------
  // Trimming and splitting
  // ---------------------------------------------------------------------------------------------

  /** Unicode White_Space. */
  predicate IsSpace(c: char) {
    var code := c as int;
    9 <= code <= 13 || 0x2000 <= code <= 0x200A
    || code in {0x20, 0x85, 0xA0, 0x1680, 0x2028, 0x2029, 0x202F, 0x205F, 0x3000}
  }

  /** One by one: tab to carriage return, space, next line, no-break and Ogham space, the spaces by width, line and paragraph ends. */
  lemma SpacesAreWhiteSpace(c: char)
    ensures (c as int in {9, 10, 11, 12, 13, 32, 133, 160, 5760} || c as int in {8192, 8193, 8194, 8195, 8196, 8197, 8198, 8199, 8200}
             || c as int in {8201, 8202, 8232, 8233, 8239, 8287, 12288}) <==> IsSpace(c)
  {
  }

  function TrimStart(text: string): string {
    if text != "" && IsSpace(text[0]) then TrimStart(text[1..]) else text
  }

  function TrimEnd(text: string): string {
    if text != "" && IsSpace(text[|text| - 1]) then TrimEnd(text[..|text| - 1]) else text
  }

  function Trim(text: string): string {
    TrimEnd(TrimStart(text))
  }

  function TrimEquals(text: string): string {
    if text != "" && text[|text| - 1] == '=' then TrimEquals(text[..|text| - 1]) else text
  }

  /** Neither end is white space. */
  predicate IsTrimmed(text: string) {
    text == "" || (!IsSpace(text[0]) && !IsSpace(text[|text| - 1]))
  }

  function NextDepth(depth: nat, c: char): nat {
    if c == '[' then depth + 1
    else if c == ']' && depth > 0 then depth - 1
    else depth
  }

  /** Splitting at top-level commas: `current` is the part under way, at bracket depth `depth`. */
  function SplitFrom(text: string, depth: nat, current: string): seq<string> {
    if text == "" then (if Trim(current) == "" then [] else [Trim(current)])
    else if text[0] == ',' && depth == 0 then [Trim(current)] + SplitFrom(text[1..], 0, "")
    else SplitFrom(text[1..], NextDepth(depth, text[0]), current + [text[0]])
  }

  /** `split_top_level_type_args`. */
  method SplitTopLevelTypeArgs(text: string) returns (parts: seq<string>)
    ensures parts == SplitFrom(text, 0, "")
  {
    parts := [];
    var depth: nat, start := 0, 0;
    assert text[0..] == text;
    for i := 0 to |text|
      invariant 0 <= start <= i
      invariant parts + SplitFrom(text[i..], depth, text[start..i]) == SplitFrom(text, 0, "")
    {
      var c := text[i];
      assert text[i..][0] == c && text[i..][1..] == text[i + 1..];
      assert text[start..i] + [c] == text[start..i + 1];
      if c == '[' {
        depth := depth + 1;
      } else if c == ']' {
        depth := if depth > 0 then depth - 1 else 0;
      } else if c == ',' && depth == 0 {
        assert parts + ([Trim(text[start..i])] + SplitFrom(text[i + 1..], 0, ""))
          == parts + [Trim(text[start..i])] + SplitFrom(text[i + 1..], 0, "");
        parts := parts + [Trim(text[start..i])];
        start := i + 1;
        assert text[start..i + 1] == "";
      }
    }
    assert text[|text|..] == "";
    var tail := Trim(text[start..]);
    assert text[start..] == text[start..|text|];
    if tail != "" {
      parts := parts + [tail];
    }
  }

  function Join(pieces: seq<string>): string {
    if pieces == [] then ""
    else if |pieces| == 1 then pieces[0]
    else pieces[0] + "," + Join(pieces[1..])
  }

  /** The depth after a text, None when a comma stands at depth zero. */
  function Scan(text: string, depth: nat): Option<nat> {
    if text == "" then Some(depth)
    else if text[0] == ',' && depth == 0 then None
    else Scan(text[1..], NextDepth(depth, text[0]))
  }

  /** A text that survives splitting as one part: no comma outside brackets, brackets closed. */
  predicate IsClosedText(text: string) {
    Scan(text, 0) == Some(0)
  }

  lemma {:induction false} SplitSkips(text: string, rest: string, depth: nat, current: string)
    requires Scan(text, depth).Some?
    ensures SplitFrom(text + rest, depth, current) == SplitFrom(rest, Scan(text, depth).value, current + text)
    decreases |text|
  {
    if text == "" {
      assert text + rest == rest && current + text == current;
    } else {
      assert (text + rest)[1..] == text[1..] + rest;
      SplitSkips(text[1..], rest, NextDepth(depth, text[0]), current + [text[0]]);
      assert current + [text[0]] + text[1..] == current + text;
    }
  }

  lemma {:induction false} TrimTrimmed(text: string)
    requires IsTrimmed(text)
    ensures Trim(text) == text
  {
  }

  /** Splitting a join gives the pieces back. */
  lemma {:induction false} SplitOfJoin(pieces: seq<string>)
    requires forall i :: 0 <= i < |pieces| ==> pieces[i] != "" && IsTrimmed(pieces[i]) && IsClosedText(pieces[i])
    ensures SplitFrom(Join(pieces), 0, "") == pieces
    decreases |pieces|
  {
    if pieces == [] {
    } else {
      var head := pieces[0];
      TrimTrimmed(head);
      assert "" + head == head;
      if |pieces| == 1 {
        SplitSkips(head, "", 0, "");
        assert head + "" == head;
      } else {
        var rest := Join(pieces[1..]);
        assert head + "," + rest == head + ("," + rest);
        SplitSkips(head, "," + rest, 0, "");
        assert ("," + rest)[1..] == rest;
        SplitOfJoin(pieces[1..]);
      }
    }
  }

  // ---------------------------------------------------------------------------------------------
  // The printer
  // ---------------------------------------------------------------------------------------------

  function RenderCore(p: Param): string {
    match p.annotation
    case Some(annotation) => p.name + ":" + annotation
    case None => p.name
  }

  function RenderParam(p: Param): string {
    var rendered := RenderCore(p) + if p.hasDefault then "=" else "";
    if p.keywordVariadic then "**" + rendered
    else if p.variadic then "*" + rendered
    else rendered
  }

  function PositionalOnlyCount(params: seq<Param>): nat {
    if params == [] then 0
    else PositionalOnlyCount(params[..|params| - 1]) + if params[|params| - 1].positionalOnly then 1 else 0
  }

  ghost predicate HasVariadic(params: seq<Param>) {
    exists i :: 0 <= i < |params| && params[i].variadic
  }

  ghost predicate IsFirstKeywordOnly(params: seq<Param>, i: nat)
    requires i < |params|
  {
    params[i].keywordOnly && forall j :: 0 <= j < i ==> !params[j].keywordOnly
  }

  /** What the printer emits for parameter `i`: a star marker before, a slash marker after, where due. */
  ghost function Chunk(params: seq<Param>, i: nat): seq<string>
    requires i < |params|
  {
    (if IsFirstKeywordOnly(params, i) && !HasVariadic(params) then ["*"] else [])
    + [RenderParam(params[i])]
    + (if PositionalOnlyCount(params) > 0 && i + 1 == PositionalOnlyCount(params) then ["/"] else [])
  }

  ghost function Pieces(params: seq<Param>, n: nat): seq<string>
    requires n <= |params|
  {
    if n == 0 then [] else Pieces(params, n - 1) + Chunk(params, n - 1)
  }

  ghost function Printed(params: seq<Param>, returns_: string): string {
    "(" + Join(Pieces(params, |params|)) + ")->" + returns_
  }

  /** What the printer finds out before it renders. */
  method SurveyParams(params: seq<Param>) returns (positionalOnlyCount: nat, hasVariadic: bool, keywordOnlyIndex: int)
    ensures positionalOnlyCount == PositionalOnlyCount(params)
    ensures hasVariadic <==> HasVariadic(params)
    ensures forall i :: 0 <= i < |params| ==> (i == keywordOnlyIndex <==> IsFirstKeywordOnly(params, i))
  {
    positionalOnlyCount, hasVariadic, keywordOnlyIndex := 0, false, -1;
    for i := 0 to |params|
      invariant positionalOnlyCount == PositionalOnlyCount(params[..i])
      invariant hasVariadic <==> exists j :: 0 <= j < i && params[j].variadic
      invariant -1 <= keywordOnlyIndex < i
      invariant keywordOnlyIndex == -1 ==> forall j :: 0 <= j < i ==> !params[j].keywordOnly
      invariant keywordOnlyIndex >= 0 ==> IsFirstKeywordOnly(params, keywordOnlyIndex)
    {
      assert params[..i + 1][..i] == params[..i];
      if params[i].positionalOnly {
        positionalOnlyCount := positionalOnlyCount + 1;
      }
      if params[i].variadic {
        hasVariadic := true;
      }
      if keywordOnlyIndex == -1 && params[i].keywordOnly {
        keywordOnlyIndex := i;
      }
    }
    assert params[..|params|] == params;
  }

  /** `render_signature_from_direct_params`. */
  method RenderSignature(params: seq<Param>, returns_: string) returns (text: string)
    ensures text == Printed(params, returns_)
  {
    var positionalOnlyCount, hasVariadic, keywordOnlyIndex := SurveyParams(params);
    var rendered: seq<string> := [];
    for i := 0 to |params|
      invariant rendered == Pieces(params, i)
    {
      ghost var before := rendered;
      if keywordOnlyIndex == i && !hasVariadic {
        rendered := rendered + ["*"];
      }
      rendered := rendered + [RenderParam(params[i])];
      if positionalOnlyCount > 0 && i + 1 == positionalOnlyCount {
        rendered := rendered + ["/"];
      }
      assert rendered == before + Chunk(params, i);
    }
    text := "(" + Join(rendered) + ")->" + returns_;
  }

  // ---------------------------------------------------------------------------------------------
  // The parser
  // ---------------------------------------------------------------------------------------------

  function IndexOf(text: string, c: char): (index: Option<nat>)
    ensures index.Some? ==> index.value < |text| && text[index.value] == c
  {
    if text == "" then None
    else if text[0] == c then Some(0)
    else match IndexOf(text[1..], c) case Some(i) => Some(i + 1) case None => None
  }

  function Position(parts: seq<string>, part: string): Option<nat> {
    if parts == [] then None
    else if parts[0] == part then Some(0)
    else match Position(parts[1..], part) case Some(i) => Some(i + 1) case None => None
  }

  datatype Bare = Bare(core: string, variadic: bool, keywordVariadic: bool)

  function StripStars(text: string): Bare {
    if |text| >= 2 && text[..2] == "**" then Bare(Trim(text[2..]), false, true)
    else if text != "" && text[0] == '*' then Bare(Trim(text[1..]), true, false)
    else Bare(text, false, false)
  }

  /** One star in front makes a parameter variadic, two make it keyword-variadic, and nothing else does. */
  lemma StarsTellKind(text: string)
    ensures StripStars(text).keywordVariadic <==> "**" <= text
    ensures StripStars(text).variadic <==> "*" <= text && !("**" <= text)
    ensures !("*" <= text) ==> StripStars(text).core == text
  {
  }

  /** Name and annotation around the first colon; without a colon the annotation is empty. */
  function SplitAtColon(core: string): (string, string) {
    match IndexOf(core, ':')
    case Some(colon) => (Trim(core[..colon]), Trim(core[colon + 1..]))
    case None => (core, "")
  }

  /** The parameter a part stands for, stars and default marker taken off, and whether it opens the keyword-only section. */
  function ParsePart(part: string, positionalOnly: bool, keywordOnlyActive: bool): ParsedParam {
    var hasDefault := part != "" && part[|part| - 1] == '=';
    var bare := StripStars(Trim(TrimEquals(part)));
    var split := SplitAtColon(bare.core);
    ParsedParam(split.0, split.1, hasDefault, positionalOnly,
                !bare.variadic && !bare.keywordVariadic && keywordOnlyActive, bare.variadic, bare.keywordVariadic)
  }

  /** The loop's variables after the first `n` parts. */
  datatype Progress = Progress(params: seq<ParsedParam>, keywordOnlyActive: bool)

  predicate BeforeSlash(parts: seq<string>, index: nat) {
    var slash := Position(parts, "/");
    slash.Some? && index < slash.value
  }

  predicate AfterStar(parts: seq<string>, index: nat) {
    var star := Position(parts, "*");
    star.Some? && index > star.value
  }

  /** What one part does to the loop's variables. */
  function ParseStep(sofar: Progress, part: string, beforeSlash: bool, afterStar: bool): Progress {
    if part == "/" then sofar
    else if part == "*" then Progress(sofar.params, true)
    else
      var param := ParsePart(part, beforeSlash, afterStar || sofar.keywordOnlyActive);
      Progress(sofar.params + [param], sofar.keywordOnlyActive || param.variadic)
  }

  function ParseParts(parts: seq<string>, n: nat): Progress
    requires n <= |parts|
  {
    if n == 0 then Progress([], false)
    else ParseStep(ParseParts(parts, n - 1), Trim(parts[n - 1]), BeforeSlash(parts, n - 1), AfterStar(parts, n - 1))
  }

  /** The text between the opening parenthesis and the first closing one. */
  function InnerText(signature: string): Option<string> {
    if signature == "" || signature[0] != '(' then None
    else
      match IndexOf(signature[1..], ')')
      case None => None
      case Some(i) => Some(signature[1..][..i])
  }

  /** `parse_direct_signature_params`. */
  method ParseDirectSignatureParams(signature: string) returns (params: Option<seq<ParsedParam>>)
    ensures params == match InnerText(signature)
                      case None => None
                      case Some(inner) => if inner == "" then Some([])
                                          else var parts := SplitFrom(inner, 0, ""); Some(ParseParts(parts, |parts|).params)
  {
    var inner := InnerText(signature);
    if inner.None? {
      return None;
    }
    if inner.value == "" {
      return Some([]);
    }
    var parts := SplitTopLevelTypeArgs(inner.value);
    var slashIndex, starIndex := Position(parts, "/"), Position(parts, "*");
    var parsed: seq<ParsedParam> := [];
    var keywordOnlyActive := false;
    for i := 0 to |parts|
      invariant Progress(parsed, keywordOnlyActive) == ParseParts(parts, i)
    {
      var beforeSlash := slashIndex.Some? && i < slashIndex.value;
      var afterStar := starIndex.Some? && i > starIndex.value;
      parsed, keywordOnlyActive := ReadPart(parsed, keywordOnlyActive, Trim(parts[i]), beforeSlash, afterStar);
    }
    params := Some(parsed);
  }

  /** The loop body: markers only open sections, anything else is a parameter. */
  method ReadPart(parsed: seq<ParsedParam>, active: bool, part: string, beforeSlash: bool, afterStar: bool)
    returns (parsed': seq<ParsedParam>, active': bool)
    ensures Progress(parsed', active') == ParseStep(Progress(parsed, active), part, beforeSlash, afterStar)
  {
    parsed', active' := parsed, active;
    if part == "/" {
      return;
    }
    if part == "*" {
      active' := true;
      return;
    }
    var param := ParsePart(part, beforeSlash, afterStar || active);
    if param.variadic {
      active' := true;
    }
    parsed' := parsed + [param];
  }

  // ---------------------------------------------------------------------------------------------
  // Well-formed parameter lists
  // ---------------------------------------------------------------------------------------------

  predicate IsMarker(c: char) {
    c in {',', ':', '=', '*', '/', '(', ')', '[', ']'}
  }

  predicate ValidName(name: string) {
    name != "" && forall i :: 0 <= i < |name| ==> !IsMarker(name[i]) && !IsSpace(name[i])
  }

  predicate PlainAnnotation(annotation: string) {
    && IsTrimmed(annotation)
    && IsClosedText(annotation)
    && (annotation != "" ==> annotation[|annotation| - 1] != '=')
  }

  /** The annotation has a closing parenthesis, as calls inside `Annotated[...]` have. */
  predicate HasParenthesis(p: Param) {
    p.annotation.Some? && ')' in p.annotation.value
  }

  /** Positional-only, ordinary, `*args`, keyword-only, `**kwargs`. */
  function Rank(p: Param): nat {
    if p.positionalOnly then 0
    else if p.variadic then 2
    else if p.keywordOnly then 3
    else if p.keywordVariadic then 4
    else 1
  }

  predicate ValidParam(p: Param) {
    PlainParam(p) && !HasParenthesis(p)
  }

  predicate PlainParam(p: Param) {
    && ValidName(p.name)
    && (p.annotation.Some? ==> PlainAnnotation(p.annotation.value))
    && (p.positionalOnly ==> !p.variadic && !p.keywordOnly && !p.keywordVariadic)
    && (p.variadic ==> !p.keywordOnly && !p.keywordVariadic)
    && (p.keywordOnly ==> !p.keywordVariadic)
  }

  /** Valid parameters in the order the language requires, at most one `*args` and one `**kwargs`. */
  ghost predicate WellFormed(params: seq<Param>) {
    (forall i :: 0 <= i < |params| ==> ValidParam(params[i])) && Ordered(params)
  }

  ghost predicate Ordered(params: seq<Param>) {
    && (forall i, j :: 0 <= i < j < |params| ==> Rank(params[i]) <= Rank(params[j]))
    && (forall i, j :: 0 <= i < j < |params| && Rank(params[i]) == Rank(params[j]) ==> Rank(params[i]) !in {2, 4})
  }

  // ---------------------------------------------------------------------------------------------
  // One parameter survives the trip
  // ---------------------------------------------------------------------------------------------

  lemma {:induction false} NameScans(name: string, depth: nat)
    requires forall i :: 0 <= i < |name| ==> !IsMarker(name[i])
    ensures Scan(name, depth) == Some(depth)
    ensures IndexOf(name, ':').None?
  {
    if name == "" {
    } else {
      NameScans(name[1..], depth);
    }
  }

  lemma {:induction false} ScanConcatenation(left: string, right: string, depth: nat)
    requires Scan(left, depth).Some?
    ensures Scan(left + right, depth) == Scan(right, Scan(left, depth).value)
    decreases |left|
  {
    if left == "" {
      assert left + right == right;
    } else {
      assert (left + right)[1..] == left[1..] + right;
      ScanConcatenation(left[1..], right, NextDepth(depth, left[0]));
    }
  }

  /** A text without commas and brackets scans at any depth. */
  lemma {:induction false} PlainScans(text: string, depth: nat)
    requires forall i :: 0 <= i < |text| ==> text[i] !in {',', '[', ']'}
    ensures Scan(text, depth) == Some(depth)
  {
    if text == "" {
    } else {
      PlainScans(text[1..], depth);
    }
  }

  lemma {:induction false} IndexAfter(left: string, right: string, c: char)
    requires c !in left
    ensures IndexOf(left + [c] + right, c) == Some(|left|)
    decreases |left|
  {
    if left == "" {
    } else {
      assert (left + [c] + right)[1..] == left[1..] + [c] + right;
      IndexAfter(left[1..], right, c);
    }
  }

  /** The core is trimmed, closed, starts with the name and ends with neither '=' nor white space. */
  lemma CoreShape(p: Param)
    requires ValidParam(p)
    ensures RenderCore(p) != "" && IsTrimmed(RenderCore(p)) && IsClosedText(RenderCore(p))
    ensures RenderCore(p)[0] == p.name[0]
    ensures RenderCore(p)[|RenderCore(p)| - 1] != '='
    ensures ')' !in RenderCore(p)
  {
    NameScans(p.name, 0);
    assert p.name[|p.name| - 1] != '=' && !IsSpace(p.name[|p.name| - 1]) && !IsSpace(p.name[0]);
    if p.annotation.Some? {
      var annotation := p.annotation.value;
      ScanConcatenation(p.name, ":" + annotation, 0);
      assert p.name + ":" + annotation == p.name + (":" + annotation);
      assert (":" + annotation)[1..] == annotation;
    }
  }

  lemma ClosedConcatenation(left: string, right: string)
    requires IsClosedText(left) && IsClosedText(right)
    ensures IsClosedText(left + right)
  {
    ScanConcatenation(left, right, 0);
  }

  /** The stars and the default marker around a core. */
  function Stars(p: Param): string {
    if p.keywordVariadic then "**" else if p.variadic then "*" else ""
  }

  function DefaultMark(p: Param): string {
    if p.hasDefault then "=" else ""
  }

  lemma RenderedParts(p: Param)
    ensures RenderParam(p) == Stars(p) + RenderCore(p) + DefaultMark(p)
  {
    assert Stars(p) + RenderCore(p) + DefaultMark(p) == Stars(p) + (RenderCore(p) + DefaultMark(p));
  }

  /** The rendered parameter is one part of the split, and no marker. */
  lemma RenderedShape(p: Param)
    requires ValidParam(p)
    ensures RenderParam(p) != "" && IsTrimmed(RenderParam(p)) && IsClosedText(RenderParam(p))
    ensures RenderParam(p) != "/" && RenderParam(p) != "*"
    ensures ')' !in RenderParam(p)
  {
    CoreShape(p);
    RenderedParts(p);
    var core, stars, mark := RenderCore(p), Stars(p), DefaultMark(p);
    PlainScans(stars, 0);
    PlainScans(mark, 0);
    ClosedConcatenation(stars, core);
    ClosedConcatenation(stars + core, mark);
    var text := stars + core + mark;
    assert !IsMarker(core[0]);
    assert text[|stars|] == core[0];
    assert text[0] == if stars == "" then core[0] else '*';
    assert text[|text| - 1] == if mark == "" then core[|core| - 1] else '=';
    assert text != "/" && text != "*";
  }

  lemma SplitCore(p: Param)
    requires ValidParam(p)
    ensures p.annotation.None? ==> IndexOf(RenderCore(p), ':').None?
    ensures SplitAtColon(RenderCore(p)) == (p.name, Recovered(p).annotation)
  {
    NameScans(p.name, 0);
    TrimTrimmed(p.name);
    if p.annotation.Some? {
      IndexAfter(p.name, p.annotation.value, ':');
      TrimTrimmed(p.annotation.value);
      assert RenderCore(p) == p.name + [':'] + p.annotation.value;
      assert RenderCore(p)[..|p.name|] == p.name && RenderCore(p)[|p.name| + 1..] == p.annotation.value;
    }
  }

  /** Parsing the text of one parameter gives its name, annotation, default and star kind back. */
  lemma ParseRendered(p: Param, positionalOnly: bool, keywordOnlyActive: bool)
    requires ValidParam(p)
    ensures ParsePart(RenderParam(p), positionalOnly, keywordOnlyActive) ==
            Recovered(p).(positionalOnly := positionalOnly, keywordOnly := !p.variadic && !p.keywordVariadic && keywordOnlyActive)
  {
    RenderedParts(p);
    BareIsTrimmed(p);
    var bare := Stars(p) + RenderCore(p);
    DefaultMarkComesOff(bare, p);
    TrimTrimmed(bare);
    StarsComeOff(p);
    SplitCore(p);
  }

  lemma DefaultMarkComesOff(bare: string, p: Param)
    requires bare != "" && bare[|bare| - 1] != '='
    ensures var part := bare + DefaultMark(p); TrimEquals(part) == bare && (part[|part| - 1] == '=' <==> p.hasDefault)
  {
    var part := bare + DefaultMark(p);
    if p.hasDefault {
      assert part[..|part| - 1] == bare;
    } else {
      assert part == bare;
    }
  }

  lemma BareIsTrimmed(p: Param)
    requires ValidParam(p)
    ensures var bare := Stars(p) + RenderCore(p); bare != "" && bare[|bare| - 1] != '=' && IsTrimmed(bare)
  {
    CoreShape(p);
    var bare := Stars(p) + RenderCore(p);
    assert bare[|bare| - 1] == RenderCore(p)[|RenderCore(p)| - 1];
    assert bare[0] == if Stars(p) == "" then RenderCore(p)[0] else '*';
  }

  lemma StarsComeOff(p: Param)
    requires ValidParam(p)
    ensures StripStars(Stars(p) + RenderCore(p)) == Bare(RenderCore(p), p.variadic, p.keywordVariadic)
  {
    CoreShape(p);
    var core := RenderCore(p);
    var bare := Stars(p) + core;
    TrimTrimmed(core);
    assert !IsMarker(p.name[0]) && core[0] != '*';
    if p.keywordVariadic {
      assert bare[..2] == "**" && bare[2..] == core;
    } else if p.variadic {
      assert bare[0] == '*' && bare[1] == core[0] && bare[1..] == core;
      assert |bare| >= 2 && bare[..2][1] == core[0];
    } else {
      assert bare == core;
      assert |core| >= 2 ==> core[..2][0] != '*';
    }
  }

  // ---------------------------------------------------------------------------------------------
  // Markers
  // ---------------------------------------------------------------------------------------------

  /** In a well-formed list the positional-only parameters are the first ones. */
  lemma {:induction false} PositionalOnlyFirst(params: seq<Param>)
    requires WellFormed(params)
    ensures PositionalOnlyCount(params) <= |params|
    ensures forall i :: 0 <= i < |params| ==> (params[i].positionalOnly <==> i < PositionalOnlyCount(params))
  {
    if params == [] {
    } else {
      var front := params[..|params| - 1];
      PositionalOnlyFirst(front);
      var last := params[|params| - 1];
      forall i | 0 <= i < |front|
        ensures params[i].positionalOnly <==> i < PositionalOnlyCount(front)
        ensures last.positionalOnly ==> params[i].positionalOnly
      {
        assert params[i] == front[i];
        assert Rank(params[i]) <= Rank(last);
      }
      if last.positionalOnly && |front| > 0 {
        assert front[|front| - 1].positionalOnly;
      }
    }
  }

  lemma {:induction false} PositionIs(parts: seq<string>, part: string, i: nat)
    requires i < |parts| && parts[i] == part && forall j :: 0 <= j < i ==> parts[j] != part
    ensures Position(parts, part) == Some(i)
    decreases i
  {
    if i == 0 {
    } else {
      PositionIs(parts[1..], part, i - 1);
    }
  }

  lemma {:induction false} PositionNone(parts: seq<string>, part: string)
    requires part !in parts
    ensures Position(parts, part).None?
  {
    if parts == [] {
    } else {
      PositionNone(parts[1..], part);
    }
  }

  lemma {:induction false} PositionFinds(parts: seq<string>, part: string)
    ensures Position(parts, part).Some? ==> Position(parts, part).value < |parts| && parts[Position(parts, part).value] == part
  {
    if parts == [] || parts[0] == part {
    } else {
      PositionFinds(parts[1..], part);
    }
  }

  lemma {:induction false} PiecesArePrefix(params: seq<Param>, n: nat, m: nat)
    requires n <= m <= |params|
    ensures Pieces(params, n) <= Pieces(params, m)
    decreases m
  {
    if n == m {
    } else {
      PiecesArePrefix(params, n, m - 1);
    }
  }

  /** One non-empty part of the split, without a closing parenthesis. */
  predicate IsPiece(text: string) {
    text != "" && IsTrimmed(text) && IsClosedText(text) && ')' !in text
  }

  lemma ChunkIsPieces(params: seq<Param>, i: nat)
    requires i < |params| && ValidParam(params[i])
    ensures forall piece :: piece in Chunk(params, i) ==> IsPiece(piece)
  {
    RenderedShape(params[i]);
    PlainScans("*", 0);
    PlainScans("/", 0);
    assert IsPiece("*") && IsPiece("/") && IsPiece(RenderParam(params[i]));
  }

  /** Every piece is a marker or a rendered parameter, hence one part of the split. */
  lemma {:induction false} PiecesShape(params: seq<Param>, n: nat)
    requires WellFormed(params) && n <= |params|
    ensures forall piece :: piece in Pieces(params, n) ==> IsPiece(piece)
    ensures n > 0 ==> Pieces(params, n) != []
    decreases n
  {
    if n == 0 {
    } else {
      var i := n - 1;
      PiecesShape(params, i);
      assert ValidParam(params[i]);
      ChunkIsPieces(params, i);
      assert Pieces(params, n) == Pieces(params, i) + Chunk(params, i);
      assert RenderParam(params[i]) in Chunk(params, i);
    }
  }

  /** Only the last positional-only parameter brings the slash; the earlier ones bring nothing but their text. */
  lemma {:induction false} ChunkSlash(params: seq<Param>, i: nat)
    requires WellFormed(params) && i < |params|
    ensures i + 1 < PositionalOnlyCount(params) ==> Chunk(params, i) == [RenderParam(params[i])]
    ensures i + 1 == PositionalOnlyCount(params) ==> Chunk(params, i) == [RenderParam(params[i]), "/"]
    ensures i + 1 != PositionalOnlyCount(params) ==> "/" !in Chunk(params, i)
    ensures RenderParam(params[i]) != "/"
  {
    PositionalOnlyFirst(params);
    RenderedShape(params[i]);
    assert ValidParam(params[i]);
  }

  /** Before the slash: one piece for each positional-only parameter.  Without them: no slash at all. */
  ghost predicate SlashPlaced(pieces: seq<string>, n: nat, count: nat) {
    && (n < count ==> |pieces| == n && "/" !in pieces)
    && (n >= count > 0 ==> |pieces| > count && pieces[count] == "/" && forall j :: 0 <= j < count ==> pieces[j] != "/")
    && (count == 0 ==> "/" !in pieces)
  }

  lemma {:induction false} SlashPieces(params: seq<Param>, n: nat)
    requires WellFormed(params) && n <= |params|
    ensures SlashPlaced(Pieces(params, n), n, PositionalOnlyCount(params))
    decreases n
  {
    if n == 0 {
    } else {
      var i := n - 1;
      SlashPieces(params, i);
      ChunkSlash(params, i);
      OneChunkMore(Pieces(params, i), Chunk(params, i), n, PositionalOnlyCount(params), RenderParam(params[i]));
    }
  }

  lemma OneChunkMore(pieces: seq<string>, chunk: seq<string>, n: nat, count: nat, text: string)
    requires n > 0 && SlashPlaced(pieces, n - 1, count) && text != "/"
    requires n < count ==> chunk == [text]
    requires n == count ==> chunk == [text, "/"]
    requires n != count ==> "/" !in chunk
    ensures SlashPlaced(pieces + chunk, n, count)
  {
    var longer := pieces + chunk;
    if n == count {
      assert longer[count] == chunk[1] && longer[count - 1] == chunk[0];
    }
  }

  /** The parser's slash index. */
  lemma {:induction false} SlashIndex(params: seq<Param>)
    requires WellFormed(params)
    ensures var slash := Position(Pieces(params, |params|), "/");
      if PositionalOnlyCount(params) > 0 then slash == Some(PositionalOnlyCount(params)) else slash.None?
  {
    var pieces, count := Pieces(params, |params|), PositionalOnlyCount(params);
    SlashPieces(params, |params|);
    PositionalOnlyFirst(params);
    if count > 0 {
      PositionIs(pieces, "/", count);
    } else {
      PositionNone(pieces, "/");
    }
  }

  /** Whether the keyword-only section is open once parameter `i` is about to be read. */
  ghost predicate KeywordSectionOpen(params: seq<Param>, i: nat)
    requires i < |params|
  {
    || (exists j :: 0 <= j < i && params[j].variadic)
    || (!HasVariadic(params) && exists j :: 0 <= j <= i && params[j].keywordOnly)
  }

  lemma SectionOpenMeansKeywordOnly(params: seq<Param>, i: nat)
    requires WellFormed(params) && i < |params|
    ensures params[i].keywordOnly <==> !params[i].variadic && !params[i].keywordVariadic && KeywordSectionOpen(params, i)
  {
    if params[i].keywordOnly && HasVariadic(params) {
      var j :| 0 <= j < |params| && params[j].variadic;
      assert Rank(params[j]) == 2 && Rank(params[i]) == 3;
    }
    forall j | 0 <= j < i && params[j].variadic
      ensures Rank(params[i]) > 2
    {
      assert Rank(params[j]) == 2;
    }
    forall j | 0 <= j <= i && params[j].keywordOnly
      ensures Rank(params[i]) >= 3
    {
      assert Rank(params[j]) == 3;
    }
  }

  lemma StepOnSlash(parts: seq<string>, n: nat)
    requires n < |parts| && parts[n] == "/"
    ensures ParseParts(parts, n + 1) == ParseParts(parts, n)
  {
    TrimTrimmed("/");
  }

  lemma StepOnStar(parts: seq<string>, n: nat)
    requires n < |parts| && parts[n] == "*"
    ensures ParseParts(parts, n + 1) == Progress(ParseParts(parts, n).params, true)
  {
    TrimTrimmed("*");
  }

  /** No step closes the keyword-only section again. */
  lemma StepKeepsOpen(sofar: Progress, part: string, beforeSlash: bool, afterStar: bool)
    ensures sofar.keywordOnlyActive ==> ParseStep(sofar, part, beforeSlash, afterStar).keywordOnlyActive
  {
  }

  /** A star part read earlier has opened the keyword-only section. */
  lemma {:induction false} StarOpens(parts: seq<string>, n: nat, star: nat)
    requires star < n <= |parts| && parts[star] == "*"
    ensures ParseParts(parts, n).keywordOnlyActive
    decreases n
  {
    var last := n - 1;
    if star < last {
      StarOpens(parts, last, star);
      StepKeepsOpen(ParseParts(parts, last), Trim(parts[last]), BeforeSlash(parts, last), AfterStar(parts, last));
    } else {
      StepOnStar(parts, last);
    }
  }

  /** Whether the section is open after the first `n` parameters. */
  ghost predicate OpenAfter(params: seq<Param>, n: nat)
    requires n <= |params|
  {
    || (exists j :: 0 <= j < n && params[j].variadic)
    || (!HasVariadic(params) && exists j :: 0 <= j < n && params[j].keywordOnly)
  }

  /** Reading the text of a parameter adds that parameter. */
  lemma {:induction false} StepOnParam(parts: seq<string>, n: nat, p: Param)
    requires n < |parts| && parts[n] == RenderParam(p) && ValidParam(p)
    ensures var sofar := ParseParts(parts, n);
      ParseParts(parts, n + 1) == Progress(
        sofar.params + [Recovered(p).(positionalOnly := BeforeSlash(parts, n),
                                      keywordOnly := !p.variadic && !p.keywordVariadic && sofar.keywordOnlyActive)],
        sofar.keywordOnlyActive || p.variadic)
  {
    RenderedShape(p);
    TrimTrimmed(parts[n]);
    PositionFinds(parts, "*");
    if AfterStar(parts, n) {
      StarOpens(parts, n, Position(parts, "*").value);
    }
    ParseRendered(p, BeforeSlash(parts, n), AfterStar(parts, n) || ParseParts(parts, n).keywordOnlyActive);
  }

  /** How many pieces come before parameter `i`, compared with the slash. */
  lemma {:induction false} PieceCount(params: seq<Param>, i: nat)
    requires WellFormed(params) && i < |params|
    ensures i < PositionalOnlyCount(params) ==> |Pieces(params, i)| == i
    ensures i >= PositionalOnlyCount(params) > 0 ==> |Pieces(params, i)| > PositionalOnlyCount(params)
    ensures params[i].positionalOnly ==> MarkerCount(params, i) == 0
  {
    SlashPieces(params, i);
    assert ValidParam(params[i]);
  }

  /** Before parameter `i` and after its star marker, part number and parameter number agree up to the slash. */
  lemma {:induction false} PartNumber(params: seq<Param>, i: nat)
    requires WellFormed(params) && i < |params|
    ensures params[i].positionalOnly <==> BeforeSlash(Pieces(params, |params|), |Pieces(params, i)| + MarkerCount(params, i))
  {
    PositionalOnlyFirst(params);
    SlashIndex(params);
    PieceCount(params, i);
  }

  function RecoveredAll(params: seq<Param>): seq<ParsedParam> {
    seq(|params|, i requires 0 <= i < |params| => Recovered(params[i]))
  }

  /** The pieces of one parameter: its star marker, its text, its slash marker. */
  lemma ChunkShape(params: seq<Param>, i: nat)
    requires i < |params|
    ensures var chunk, marker := Chunk(params, i), MarkerCount(params, i);
      && marker + 1 <= |chunk| <= marker + 2
      && (marker == 1 ==> chunk[0] == "*")
      && chunk[marker] == RenderParam(params[i])
      && (|chunk| == marker + 2 ==> chunk[marker + 1] == "/")
  {
  }

  lemma InPlace(whole: seq<string>, head: seq<string>, chunk: seq<string>)
    requires head + chunk <= whole
    ensures forall k :: 0 <= k < |chunk| ==> whole[|head| + k] == chunk[k]
  {
    assert forall k :: 0 <= k < |chunk| ==> (head + chunk)[|head| + k] == chunk[k];
  }

  /** The pieces of parameter `i` stand in the whole list where the earlier pieces end. */
  lemma PartsOfParam(params: seq<Param>, i: nat)
    requires i < |params|
    ensures var parts, at, end, marker := Pieces(params, |params|), |Pieces(params, i)|, |Pieces(params, i + 1)|, MarkerCount(params, i);
      && at + marker + 1 <= end <= at + marker + 2 && end <= |parts|
      && (marker == 1 ==> parts[at] == "*")
      && parts[at + marker] == RenderParam(params[i])
      && (end == at + marker + 2 ==> parts[end - 1] == "/")
  {
    var parts := Pieces(params, |params|);
    PiecesArePrefix(params, i + 1, |params|);
    ChunkShape(params, i);
    InPlace(parts, Pieces(params, i), Chunk(params, i));
    var at, chunk := |Pieces(params, i)|, Chunk(params, i);
    assert |Pieces(params, i + 1)| == at + |chunk|;
    assert parts[at + 0] == chunk[0];
  }

  ghost function MarkerCount(params: seq<Param>, i: nat): nat
    requires i < |params|
  {
    if IsFirstKeywordOnly(params, i) && !HasVariadic(params) then 1 else 0
  }

  /** The star marker before a parameter, if there is one, opens the section. */
  lemma {:induction false} ParseMarker(parts: seq<string>, at: nat, own: nat, sofar: Progress)
    requires at <= own <= at + 1 && own < |parts| && (at < own ==> parts[at] == "*")
    requires ParseParts(parts, at) == sofar
    ensures ParseParts(parts, own) == Progress(sofar.params, sofar.keywordOnlyActive || at < own)
  {
    if at < own {
      StepOnStar(parts, at);
    }
  }

  lemma RecoveredSnoc(params: seq<Param>, i: nat)
    requires i < |params|
    ensures RecoveredAll(params[..i + 1]) == RecoveredAll(params[..i]) + [Recovered(params[i])]
  {
  }

  /** A parameter whose flags agree with where it stands is recovered as it was. */
  lemma StepOnPlacedParam(parts: seq<string>, n: nat, p: Param)
    requires n < |parts| && parts[n] == RenderParam(p) && ValidParam(p)
    requires p.positionalOnly <==> BeforeSlash(parts, n)
    requires p.keywordOnly <==> !p.variadic && !p.keywordVariadic && ParseParts(parts, n).keywordOnlyActive
    ensures ParseParts(parts, n + 1) ==
            Progress(ParseParts(parts, n).params + [Recovered(p)], ParseParts(parts, n).keywordOnlyActive || p.variadic)
  {
    StepOnParam(parts, n, p);
  }

  lemma OpenOneFurther(params: seq<Param>, i: nat)
    requires i < |params|
    ensures OpenAfter(params, i + 1) <==> KeywordSectionOpen(params, i) || params[i].variadic
  {
  }

  /** After the pieces of the first `n` parameters the parser holds exactly those parameters. */
  lemma {:induction false} ParseKeepsUp(params: seq<Param>, n: nat)
    requires WellFormed(params) && n <= |params|
    ensures |Pieces(params, n)| <= |Pieces(params, |params|)|
    ensures ParseParts(Pieces(params, |params|), |Pieces(params, n)|) == Progress(RecoveredAll(params[..n]), OpenAfter(params, n))
    decreases n
  {
    if n == 0 {
    } else {
      var i := n - 1;
      ParseKeepsUp(params, i);
      var parts, at, own, end := PlaceOfParam(params, i);
      ParseOneParam(parts, params, i, at, own, end);
    }
  }

  /** Where parameter `i` stands among the parts. */
  lemma PlaceOfParam(params: seq<Param>, i: nat) returns (parts: seq<string>, at: nat, own: nat, end: nat)
    requires WellFormed(params) && i < |params|
    ensures parts == Pieces(params, |params|) && at == |Pieces(params, i)| && end == |Pieces(params, i + 1)|
    ensures at <= own <= at + 1 && own + 1 <= end <= own + 2 && end <= |parts|
    ensures at < own <==> MarkerCount(params, i) == 1
    ensures at < own ==> parts[at] == "*"
    ensures parts[own] == RenderParam(params[i])
    ensures own + 1 < end ==> parts[own + 1] == "/"
    ensures params[i].positionalOnly <==> BeforeSlash(parts, own)
  {
    parts, at, end := Pieces(params, |params|), |Pieces(params, i)|, |Pieces(params, i + 1)|;
    own := at + MarkerCount(params, i);
    PartsOfParam(params, i);
    PartNumber(params, i);
  }

  /** Behind its marker, if it has one, a parameter's own part is read. */
  lemma ParseOwnPart(parts: seq<string>, params: seq<Param>, i: nat, own: nat)
    requires WellFormed(params) && i < |params| && own < |parts| && parts[own] == RenderParam(params[i])
    requires params[i].positionalOnly <==> BeforeSlash(parts, own)
    requires ParseParts(parts, own) == Progress(RecoveredAll(params[..i]), KeywordSectionOpen(params, i))
    ensures ParseParts(parts, own + 1) == Progress(RecoveredAll(params[..i + 1]), OpenAfter(params, i + 1))
  {
    SectionOpenMeansKeywordOnly(params, i);
    StepOnPlacedParam(parts, own, params[i]);
    RecoveredSnoc(params, i);
    OpenOneFurther(params, i);
  }

  /** From the part where the pieces of parameter `i` begin to the part where they end. */
  lemma {:induction false} ParseOneParam(parts: seq<string>, params: seq<Param>, i: nat, at: nat, own: nat, end: nat)
    requires WellFormed(params) && i < |params|
    requires at <= own <= at + 1 && own + 1 <= end <= own + 2 && end <= |parts|
    requires at < own <==> MarkerCount(params, i) == 1
    requires at < own ==> parts[at] == "*"
    requires parts[own] == RenderParam(params[i])
    requires own + 1 < end ==> parts[own + 1] == "/"
    requires params[i].positionalOnly <==> BeforeSlash(parts, own)
    requires ParseParts(parts, at) == Progress(RecoveredAll(params[..i]), OpenAfter(params, i))
    ensures ParseParts(parts, end) == Progress(RecoveredAll(params[..i + 1]), OpenAfter(params, i + 1))
  {
    SectionAfterMarker(params, i);
    ParseMarker(parts, at, own, Progress(RecoveredAll(params[..i]), OpenAfter(params, i)));
    ParseOwnPart(parts, params, i, own);
    if own + 1 < end {
      StepOnSlash(parts, own + 1);
    }
  }

  lemma SectionAfterMarker(params: seq<Param>, i: nat)
    requires i < |params|
    ensures KeywordSectionOpen(params, i) <==> OpenAfter(params, i) || (IsFirstKeywordOnly(params, i) && !HasVariadic(params))
  {
  }

  lemma {:induction false} JoinHasNoParenthesis(pieces: seq<string>)
    requires forall i :: 0 <= i < |pieces| ==> ')' !in pieces[i]
    ensures ')' !in Join(pieces)
    ensures pieces != [] && pieces[0] != "" ==> Join(pieces) != ""
  {
    if |pieces| <= 1 {
    } else {
      JoinHasNoParenthesis(pieces[1..]);
    }
  }

  /** Splitting and reading the joined pieces gives the parameters back. */
  lemma {:induction false} PiecesParseBack(params: seq<Param>)
    requires WellFormed(params)
    ensures var pieces := Pieces(params, |params|);
      SplitFrom(Join(pieces), 0, "") == pieces && ParseParts(pieces, |pieces|).params == RecoveredAll(params)
  {
    var pieces := Pieces(params, |params|);
    PiecesShape(params, |params|);
    assert forall i :: 0 <= i < |pieces| ==> IsPiece(pieces[i]);
    SplitOfJoin(pieces);
    ParseKeepsUp(params, |params|);
    assert params[..|params|] == params;
  }

  /** The parser's answer on a printed signature. */
  ghost function Reparsed(signature: string): Option<seq<ParsedParam>> {
    match InnerText(signature)
    case None => None
    case Some(inner) => if inner == "" then Some([]) else var parts := SplitFrom(inner, 0, ""); Some(ParseParts(parts, |parts|).params)
  }

  lemma {:induction false} IndexIsFirst(text: string, c: char)
    ensures IndexOf(text, c).Some? ==> c !in text[..IndexOf(text, c).value]
  {
    if text == "" || text[0] == c {
    } else {
      IndexIsFirst(text[1..], c);
      if IndexOf(text[1..], c).Some? {
        var i := IndexOf(text[1..], c).value;
        assert text[..i + 1] == [text[0]] + text[1..][..i];
      }
    }
  }

  /** What is read is the text between a leading opening parenthesis and the first closing one. */
  lemma InnerTextIff(signature: string, inner: string)
    ensures InnerText(signature) == Some(inner) <==> "(" + inner + ")" <= signature && ')' !in inner
  {
    if "(" + inner + ")" <= signature && ')' !in inner {
      var rest := signature[|inner| + 2..];
      assert signature == "(" + inner + ")" + rest;
      assert signature[0] == '(' && signature[1..] == inner + [')'] + rest;
      IndexAfter(inner, rest, ')');
      assert signature[1..][..|inner|] == inner;
    } else if InnerText(signature) == Some(inner) {
      IndexIsFirst(signature[1..], ')');
    }
  }

  /**
   Round trip: for every well-formed parameter list and any return text, parsing the printed signature
   gives back names, annotations, defaults and all four kind flags.
   */
  lemma PrintedSignatureParsesBack(params: seq<Param>, returns_: string)
    requires WellFormed(params)
    ensures Reparsed(Printed(params, returns_)) == Some(RecoveredAll(params))
  {
    var pieces := Pieces(params, |params|);
    PiecesShape(params, |params|);
    assert forall i :: 0 <= i < |pieces| ==> IsPiece(pieces[i]);
    JoinHasNoParenthesis(pieces);
    InnerTextIff(Printed(params, returns_), Join(pieces));
    if params == [] {
      assert RecoveredAll(params) == [];
    } else {
      assert pieces[0] != "";
      PiecesParseBack(params);
    }
  }

  // ---------------------------------------------------------------------------------------------
  // Annotations with parentheses
  // ---------------------------------------------------------------------------------------------

  /** Splitting takes its characters from the text. */
  lemma {:induction false} SplitHasNoParenthesis(text: string, depth: nat, current: string)
    requires ')' !in text && ')' !in current
    ensures forall part :: part in SplitFrom(text, depth, current) ==> ')' !in part
    decreases |text|
  {
    TrimTakesCharacters(current);
    if text == "" {
    } else {
      assert forall c :: c in text[1..] ==> c in text;
      SplitHasNoParenthesis(text[1..], NextDepth(depth, text[0]), current + [text[0]]);
      SplitHasNoParenthesis(text[1..], depth, "");
    }
  }

  lemma {:induction false} TrimTakesCharacters(text: string)
    ensures forall c :: c in Trim(text) ==> c in text
    ensures forall c :: c in TrimStart(text) ==> c in text
    ensures forall c :: c in TrimEnd(text) ==> c in text
    ensures forall c :: c in TrimEquals(text) ==> c in text
  {
    TrimStartTakesCharacters(text);
    TrimEndTakesCharacters(text);
    TrimEndTakesCharacters(TrimStart(text));
    TrimEqualsTakesCharacters(text);
  }

  lemma {:induction false} TrimStartTakesCharacters(text: string)
    ensures forall c :: c in TrimStart(text) ==> c in text
  {
    if text == "" {
    } else {
      TrimStartTakesCharacters(text[1..]);
    }
  }

  lemma {:induction false} TrimEndTakesCharacters(text: string)
    ensures forall c :: c in TrimEnd(text) ==> c in text
  {
    if text == "" {
    } else {
      TrimEndTakesCharacters(text[..|text| - 1]);
    }
  }

  lemma {:induction false} TrimEqualsTakesCharacters(text: string)
    ensures forall c :: c in TrimEquals(text) ==> c in text
  {
    if text == "" {
    } else {
      TrimEqualsTakesCharacters(text[..|text| - 1]);
    }
  }

  /** A parsed annotation takes its characters from the part. */
  lemma PartAnnotation(part: string, positionalOnly: bool, keywordOnlyActive: bool)
    requires ')' !in part
    ensures ')' !in ParsePart(part, positionalOnly, keywordOnlyActive).annotation
  {
    TrimTakesCharacters(part);
    TrimTakesCharacters(TrimEquals(part));
    var bare := Trim(TrimEquals(part));
    assert ')' !in bare;
    if |bare| > 0 {
      TrimTakesCharacters(bare[1..]);
    }
    if |bare| > 1 {
      TrimTakesCharacters(bare[2..]);
    }
    var core := StripStars(bare).core;
    assert ')' !in core;
    var colon := IndexOf(core, ':');
    if colon.Some? {
      TrimTakesCharacters(core[colon.value + 1..]);
    }
  }

  lemma {:induction false} ParsedAnnotations(parts: seq<string>, n: nat)
    requires n <= |parts| && forall part :: part in parts ==> ')' !in part
    ensures NoParenthesisIn(ParseParts(parts, n).params)
    decreases n
  {
    if n == 0 {
    } else {
      ParsedAnnotations(parts, n - 1);
      TrimTakesCharacters(parts[n - 1]);
      StepAnnotations(ParseParts(parts, n - 1), Trim(parts[n - 1]), BeforeSlash(parts, n - 1), AfterStar(parts, n - 1));
    }
  }

  ghost predicate NoParenthesisIn(params: seq<ParsedParam>) {
    forall i :: 0 <= i < |params| ==> ')' !in params[i].annotation
  }

  lemma StepAnnotations(sofar: Progress, part: string, beforeSlash: bool, afterStar: bool)
    requires NoParenthesisIn(sofar.params) && ')' !in part
    ensures NoParenthesisIn(ParseStep(sofar, part, beforeSlash, afterStar).params)
  {
    PartAnnotation(part, beforeSlash, afterStar || sofar.keywordOnlyActive);
  }

  /** No text whatever is parsed to an annotation with a closing parenthesis. */
  lemma NoParenthesisComesBack(signature: string)
    ensures Reparsed(signature).Some? ==>
      forall i :: 0 <= i < |Reparsed(signature).value| ==> ')' !in Reparsed(signature).value[i].annotation
  {
    if InnerText(signature).Some? {
      var inner := InnerText(signature).value;
      IndexIsFirst(signature[1..], ')');
      SplitHasNoParenthesis(inner, 0, "");
      var parts := SplitFrom(inner, 0, "");
      ParsedAnnotations(parts, |parts|);
    }
  }

  /** An otherwise well-formed parameter list parses back if and only if no annotation has a closing parenthesis. */
  lemma ParsesBackIff(params: seq<Param>, returns_: string)
    requires Ordered(params) && forall i :: 0 <= i < |params| ==> PlainParam(params[i])
    ensures Reparsed(Printed(params, returns_)) == Some(RecoveredAll(params)) <==>
      forall i :: 0 <= i < |params| ==> !HasParenthesis(params[i])
  {
    if i :| 0 <= i < |params| && HasParenthesis(params[i]) {
      NoParenthesisComesBack(Printed(params, returns_));
      assert RecoveredAll(params)[i] == Recovered(params[i]);
    } else {
      PrintedSignatureParsesBack(params, returns_);
    }
  }

  /** The same, for the two loops run one after the other. */
  method PrintThenParse(params: seq<Param>, returns_: string) returns (back: Option<seq<ParsedParam>>)
    requires WellFormed(params)
    ensures back == Some(RecoveredAll(params))
  {
    var text := RenderSignature(params, returns_);
    PrintedSignatureParsesBack(params, returns_);
    back := ParseDirectSignatureParams(text);
  }
}
