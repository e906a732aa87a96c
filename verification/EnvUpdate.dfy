/** What an update of the .env file does to what the parser reads from it. */
module EnvUpdate {
  import opened Wrappers
  import opened JsText
  import opened EnvText
  import opened EnvFiles

  lemma {:induction false} TrimEndKeepsFront(a: JsString, c: CodeUnit, b: JsString)
    requires !IsWhiteSpace(c)
    ensures TrimEnd(a + [c] + b) == a + [c] + TrimEnd(b)
  {
    var s := a + [c] + b;
    if b != [] && IsWhiteSpace(b[|b| - 1]) {
      assert s[..|s| - 1] == a + [c] + b[..|b| - 1];
      TrimEndKeepsFront(a, c, b[..|b| - 1]);
    } else {
      assert s[|s| - 1] == if b == [] then c else b[|b| - 1];
    }
  }

  lemma {:induction false} TrimEndIsPrefix(s: JsString)
    ensures TrimEnd(s) <= s && |TrimEnd(s)| <= |s|
  {
    if s != [] && IsWhiteSpace(s[|s| - 1]) {
      TrimEndIsPrefix(s[..|s| - 1]);
    }
  }

  lemma ActiveOf(name: JsString, value: JsString)
    requires IsName(name)
    ensures Active(name + [EQUALS] + value) ==
            if OnOneLine(value) then Some(Assignment(name, value)) else None
  {
    NameEnds(name, [EQUALS] + value);
    var t := name + [EQUALS] + value;
    assert t == name + ([EQUALS] + value) && t[0] == name[0];
    assert t[..|name|] == name && t[|name| + 1..] == value;
  }

  /** The line of a variable is short enough, and its trimmed value holds no line separator. */
  predicate Fits(v: EnvVariable) {
    |Trim(AssignmentLine(v))| <= MAX_LINE && OnOneLine(TrimEnd(ValueText(v)))
  }

  lemma TrimmedAssignment(v: EnvVariable)
    requires IsName(v.name)
    ensures Trim(AssignmentLine(v)) ==
            (if v.required then [] else COMMENT) + (v.name + [EQUALS] + TrimEnd(ValueText(v)))
  {
    var line := AssignmentLine(v);
    var front := (if v.required then [] else COMMENT) + v.name;
    assert line == front + [EQUALS] + ValueText(v);
    assert line[0] == if v.required then v.name[0] else HASH;
    TrimEndKeepsFront(front, EQUALS, ValueText(v));
    assert front + [EQUALS] + TrimEnd(ValueText(v)) ==
           (if v.required then [] else COMMENT) + (v.name + [EQUALS] + TrimEnd(ValueText(v)));
  }

  lemma ValueTextIsOneLine(v: EnvVariable)
    ensures NEWLINE !in ValueText(v) && CR !in ValueText(v)
    ensures v.required ==> SanitizeEnvValue(TrimEnd(ValueText(v))) == TrimEnd(ValueText(v))
  {
    if v.defaultValue.Some? {
      SanitizedIsClean(v.defaultValue.value);
      EscapedIsOneLine(v.defaultValue.value);
      TrimEndIsPrefix(ValueText(v));
      SanitizedIsClean(TrimEnd(ValueText(v)));
    }
  }

  lemma RequiredSays(v: EnvVariable, text: JsString, line: JsString)
    requires IsName(v.name) && Trim(line) == v.name + [EQUALS] + text
    requires SanitizeEnvValue(text) == text
    ensures Says(line) == if |Trim(line)| <= MAX_LINE && OnOneLine(text) then Sets(v.name, text) else Nothing
  {
    ActiveOf(v.name, text);
    assert Trim(line)[0] == v.name[0];
  }

  lemma OptionalSays(v: EnvVariable, text: JsString, line: JsString)
    requires IsName(v.name) && Trim(line) == COMMENT + (v.name + [EQUALS] + text)
    ensures Says(line) == if |Trim(line)| <= MAX_LINE && OnOneLine(text) then Mentions(v.name) else Nothing
  {
    var rest := v.name + [EQUALS] + text;
    var t := Trim(line);
    ActiveOf(v.name, text);
    assert t[0] == HASH && t[1..] == [SPACE] + rest && rest[0] == v.name[0];
    TrimStartDrops([SPACE], rest);
  }

  /** A rendered assignment is read back, as what it is and with its value less trailing white space,
      exactly when it fits. */
  lemma AssignmentReadsBack(v: EnvVariable)
    requires IsName(v.name)
    ensures Says(AssignmentLine(v)) ==
            if !Fits(v) then Nothing
            else if v.required then Sets(v.name, TrimEnd(ValueText(v)))
            else Mentions(v.name)
  {
    TrimmedAssignment(v);
    ValueTextIsOneLine(v);
    if v.required {
      assert [] + (v.name + [EQUALS] + TrimEnd(ValueText(v))) == v.name + [EQUALS] + TrimEnd(ValueText(v));
      RequiredSays(v, TrimEnd(ValueText(v)), AssignmentLine(v));
    } else {
      OptionalSays(v, TrimEnd(ValueText(v)), AssignmentLine(v));
    }
  }

  lemma HashLineSetsNothing(line: JsString)
    requires line != [] && line[0] == HASH
    ensures !Says(line).Sets?
  {
    TrimEndKeepsFront([], HASH, line[1..]);
    assert line == [] + [HASH] + line[1..];
    assert Trim(line)[0] == HASH;
  }

  /** A comment that goes on with De is no assignment. */
  lemma HintIsNoAssignment(t: JsString)
    requires |t| >= 4 && t[0] == HASH && t[1] == SPACE && t[2] == 0x44 && t[3] == 0x65
    ensures Active(t).None? && Commented(t).None?
  {
    var rest := t[2..];
    assert t[1..] == [SPACE] + rest && rest[0] == 0x44 && rest[1] == 0x65;
    TrimStartDrops([SPACE], rest);
  }

  lemma HintSaysNothing(v: EnvVariable)
    ensures Says(COMMENT + DEFAULT_HINT + ValueText(v)).Nothing?
  {
    var line := COMMENT + DEFAULT_HINT + ValueText(v);
    var back := line[10..];
    assert line[2] == 0x44 && line[3] == 0x65 && line[9] == 0x3A;
    assert line == line[..9] + [line[9]] + back;
    TrimEndKeepsFront(line[..9], 0x3A, back);
    HintIsNoAssignment(Trim(line));
  }

  predicate Describes(v: EnvVariable, name: JsString) {
    Teaches(DescriptionLine(v), name)
  }

  ghost predicate OneTeaches(lines: seq<JsString>, name: JsString) {
    exists k :: 0 <= k < |lines| && Teaches(lines[k], name)
  }

  /** The variable has the name and fits, or its description happens to read as an assignment to it. */
  predicate LearnsFrom(v: EnvVariable, name: JsString) {
    Describes(v, name) || (Fits(v) && v.name == name)
  }

  /** What the lines of one variable say. */
  lemma FormatLines(v: EnvVariable, k: nat)
    requires IsName(v.name) && k < |Format(v)|
    ensures NEWLINE !in Format(v)[k]
    ensures k == 0 ==> Format(v)[k] == DescriptionLine(v)
    ensures k > 0 && Format(v)[k] != AssignmentLine(v) ==> Says(Format(v)[k]).Nothing?
    ensures Says(Format(v)[k]).Sets? ==>
              v.required && Fits(v) && Says(Format(v)[k]) == Sets(v.name, TrimEnd(ValueText(v)))
  {
    if k == 0 {
      EscapedIsOneLine(v.description);
      HashLineSetsNothing(DescriptionLine(v));
    } else if Format(v)[k] == AssignmentLine(v) {
      ValueTextIsOneLine(v);
      NameIsOneLine(v.name);
      AssignmentReadsBack(v);
    } else if Format(v)[k] == COMMENT + DEFAULT_HINT + ValueText(v) {
      ValueTextIsOneLine(v);
      HintSaysNothing(v);
    }
  }

  lemma NameIsOneLine(name: JsString)
    requires IsName(name)
    ensures NEWLINE !in name
  {
    assert forall i :: 0 <= i < |name| ==> IsNameChar(name[i]);
  }

  lemma FormatTeaches(v: EnvVariable, name: JsString)
    requires IsName(v.name)
    ensures OneTeaches(Format(v), name) <==> LearnsFrom(v, name)
  {
    AssignmentReadsBack(v);
    var n := if v.required then 1 else 2;
    assert Format(v)[0] == DescriptionLine(v) && Format(v)[n] == AssignmentLine(v);
    forall k | 0 <= k < |Format(v)| && Teaches(Format(v)[k], name)
      ensures LearnsFrom(v, name)
    {
      FormatLines(v, k);
    }
  }

  ghost predicate NamesValid(vars: seq<EnvVariable>) {
    forall k :: 0 <= k < |vars| ==> IsName(vars[k].name)
  }

  ghost predicate Learns(vars: seq<EnvVariable>, name: JsString) {
    exists v :: v in vars && LearnsFrom(v, name)
  }

  lemma LearnsConcat(one: seq<EnvVariable>, two: seq<EnvVariable>, name: JsString)
    ensures Learns(one + two, name) <==> Learns(one, name) || Learns(two, name)
  {
  }

  lemma LearnsOne(v: EnvVariable, name: JsString)
    ensures Learns([v], name) <==> LearnsFrom(v, name)
  {
    assert v in [v];
  }

  lemma ConcatTeaches(one: seq<JsString>, two: seq<JsString>, name: JsString)
    ensures OneTeaches(one + two, name) <==> OneTeaches(one, name) || OneTeaches(two, name)
  {
    var all := one + two;
    assert forall k :: 0 <= k < |one| ==> all[k] == one[k];
    assert forall k :: 0 <= k < |two| ==> all[|one| + k] == two[k];
    assert forall k :: |one| <= k < |all| ==> all[k] == two[k - |one|];
  }

  lemma FormatOneMore(front: seq<EnvVariable>, last: EnvVariable, name: JsString)
    requires IsName(last.name) && (OneTeaches(FormatAll(front), name) <==> Learns(front, name))
    ensures OneTeaches(FormatAll(front) + Format(last), name) <==> Learns(front + [last], name)
  {
    FormatTeaches(last, name);
    ConcatTeaches(FormatAll(front), Format(last), name);
    LearnsConcat(front, [last], name);
    LearnsOne(last, name);
  }

  lemma FormatLast(vars: seq<EnvVariable>)
    requires vars != []
    ensures FormatAll(vars) == FormatAll(vars[..|vars| - 1]) + Format(vars[|vars| - 1])
  {
  }

  lemma FrontAndLast(vars: seq<EnvVariable>)
    requires vars != []
    ensures vars == vars[..|vars| - 1] + [vars[|vars| - 1]]
  {
  }

  lemma {:induction false} FormatAllTeaches(vars: seq<EnvVariable>, name: JsString)
    requires NamesValid(vars)
    ensures OneTeaches(FormatAll(vars), name) <==> Learns(vars, name)
  {
    if vars != [] {
      var front, last := vars[..|vars| - 1], vars[|vars| - 1];
      FormatAllTeaches(front, name);
      FormatOneMore(front, last, name);
      FormatLast(vars);
      FrontAndLast(vars);
    }
  }

  lemma BlockTeaches(banner: seq<JsString>, vars: seq<EnvVariable>, name: JsString)
    requires NamesValid(vars) && IsBanner(banner)
    ensures OneTeaches(Block(banner, vars), name) <==> Learns(vars, name)
  {
    FormatAllTeaches(vars, name);
    ConcatTeaches(banner, FormatAll(vars), name);
  }

  lemma {:induction false} MissingIff(vars: seq<EnvVariable>, known: EnvMap, required: bool, v: EnvVariable)
    ensures v in Missing(vars, known, required) <==>
              v in vars && v.required == required && Wanted(v) && v.name !in known
  {
    if vars != [] {
      MissingIff(vars[..|vars| - 1], known, required, v);
      assert vars == vars[..|vars| - 1] + [vars[|vars| - 1]];
    }
  }

  lemma MissingAreValid(vars: seq<EnvVariable>, known: EnvMap, required: bool)
    requires NamesValid(vars)
    ensures NamesValid(Missing(vars, known, required))
  {
    var missing := Missing(vars, known, required);
    forall k | 0 <= k < |missing| ensures IsName(missing[k].name) {
      assert missing[k] in missing;
      MissingIff(vars, known, required, missing[k]);
    }
  }

  /** Every line is on its own line, and only a required variable that is missing can set a name. */
  ghost predicate LineOf(line: JsString, vars: seq<EnvVariable>) {
    NEWLINE !in line &&
    (Says(line).Sets? ==>
       exists v :: v in vars && v.required && Fits(v) && Says(line) == Sets(v.name, TrimEnd(ValueText(v))))
  }

  lemma {:induction false} FormatAllLines(vars: seq<EnvVariable>)
    requires NamesValid(vars)
    ensures forall k :: 0 <= k < |FormatAll(vars)| ==> LineOf(FormatAll(vars)[k], vars)
  {
    if vars != [] {
      var front, last := vars[..|vars| - 1], vars[|vars| - 1];
      FormatAllLines(front);
      assert forall v :: v in front ==> v in vars;
      forall k | 0 <= k < |FormatAll(vars)| ensures LineOf(FormatAll(vars)[k], vars) {
        if k < |FormatAll(front)| {
          assert FormatAll(vars)[k] == FormatAll(front)[k];
          assert LineOf(FormatAll(front)[k], front);
        } else {
          FormatLines(last, k - |FormatAll(front)|);
          assert last in vars;
        }
      }
    }
  }

  lemma BlockLines(banner: seq<JsString>, vars: seq<EnvVariable>)
    requires NamesValid(vars) && IsBanner(banner)
    ensures forall k :: 0 <= k < |Block(banner, vars)| ==> LineOf(Block(banner, vars)[k], vars)
  {
    FormatAllLines(vars);
  }

  /** The variables an update adds. */
  function ToAdd(vars: seq<EnvVariable>, known: EnvMap): seq<EnvVariable> {
    Missing(vars, known, true) + Missing(vars, known, false)
  }

  lemma ToAddIff(vars: seq<EnvVariable>, known: EnvMap, v: EnvVariable)
    ensures v in ToAdd(vars, known) <==> v in vars && Wanted(v) && v.name !in known
  {
    MissingIff(vars, known, true, v);
    MissingIff(vars, known, false, v);
  }

  lemma LineOfMore(line: JsString, some: seq<EnvVariable>, more: seq<EnvVariable>)
    requires LineOf(line, some) && forall v :: v in some ==> v in more
    ensures LineOf(line, more)
  {
  }

  /** Two sections, for required and for optional variables, after some banner lines. */
  function Sections(top: seq<JsString>, one: seq<JsString>, two: seq<JsString>, vars: seq<EnvVariable>, known: EnvMap)
    : seq<JsString>
  {
    top + Block(one, Missing(vars, known, true)) + Block(two, Missing(vars, known, false))
  }

  lemma SectionLines(top: seq<JsString>, one: seq<JsString>, two: seq<JsString>, vars: seq<EnvVariable>, known: EnvMap)
    requires NamesValid(vars) && IsBanner(top) && IsBanner(one) && IsBanner(two)
    ensures var lines := Sections(top, one, two, vars, known);
            forall k :: 0 <= k < |lines| ==> LineOf(lines[k], ToAdd(vars, known))
  {
    var r, o, all := Missing(vars, known, true), Missing(vars, known, false), ToAdd(vars, known);
    MissingAreValid(vars, known, true);
    MissingAreValid(vars, known, false);
    BlockLines(one, r);
    BlockLines(two, o);
    var lines := Sections(top, one, two, vars, known);
    var b1, b2 := Block(one, r), Block(two, o);
    forall k | 0 <= k < |lines| ensures LineOf(lines[k], all) {
      if k < |top| {
        assert lines[k] == top[k];
      } else if k < |top| + |b1| {
        assert lines[k] == b1[k - |top|];
        LineOfMore(lines[k], r, all);
      } else {
        assert lines[k] == b2[k - |top| - |b1|];
        LineOfMore(lines[k], o, all);
      }
    }
  }

  lemma SectionsTeach(top: seq<JsString>, one: seq<JsString>, two: seq<JsString>, vars: seq<EnvVariable>,
                      known: EnvMap, name: JsString)
    requires NamesValid(vars) && IsBanner(top) && IsBanner(one) && IsBanner(two)
    ensures OneTeaches(Sections(top, one, two, vars, known), name) <==> Learns(ToAdd(vars, known), name)
  {
    var r, o := Missing(vars, known, true), Missing(vars, known, false);
    MissingAreValid(vars, known, true);
    MissingAreValid(vars, known, false);
    BlockTeaches(one, r, name);
    BlockTeaches(two, o, name);
    ConcatTeaches(top, Block(one, r), name);
    ConcatTeaches(top + Block(one, r), Block(two, o), name);
    LearnsConcat(r, o, name);
  }

  lemma AddedAreSections(b: Banners, vars: seq<EnvVariable>, known: EnvMap)
    ensures AddedLines(b, vars, known) == Sections([], b.addedRequired, b.addedOptional, vars, known)
  {
    var required := Block(b.addedRequired, Missing(vars, known, true));
    assert [] + required == required;
  }

  lemma AddedStartBlank(b: Banners, vars: seq<EnvVariable>, known: EnvMap)
    requires ValidBanners(b)
    ensures var lines := AddedLines(b, vars, known);
            && (lines == [] <==> ToAdd(vars, known) == [])
            && (lines != [] ==> |lines| > 1 && lines[0] == [])
  {
  }

  /** Appending is reading on: the parser sees the old lines, then the added ones. */
  lemma UpdateReads(b: Banners, vars: seq<EnvVariable>, content: JsString)
    requires ValidBanners(b) && NamesValid(vars)
    ensures ReadText(UpdatedText(b, vars, content)) ==
            ReadLines(ReadText(content), AddedLines(b, vars, ReadText(content)))
  {
    var known := ReadText(content);
    var lines := AddedLines(b, vars, known);
    AddedStartBlank(b, vars, known);
    AddedAreSections(b, vars, known);
    SectionLines([], b.addedRequired, b.addedOptional, vars, known);
    if lines == [] {
      assert content + Join(lines, NEWLINE) == content;
    } else {
      var rest := lines[1..];
      forall k | 0 <= k < |rest| ensures NEWLINE !in rest[k] {
        assert LineOf(lines[k + 1], ToAdd(vars, known));
      }
      SplitJoin(rest, NEWLINE);
      SplitConcat(content, NEWLINE, Join(rest, NEWLINE));
      assert content + Join(lines, NEWLINE) == content + [NEWLINE] + Join(rest, NEWLINE);
      ReadLinesConcat(map[], Split(content, NEWLINE), rest);
      assert Says([]).Nothing?;
    }
  }

  lemma NewReads(b: Banners, vars: seq<EnvVariable>)
    requires ValidBanners(b) && NamesValid(vars)
    ensures ReadText(NewText(b, vars)) == ReadLines(map[], NewLines(b, vars))
  {
    SectionLines(b.fileTop, b.fileRequired, b.fileOptional, vars, map[]);
    var lines := NewLines(b, vars);
    assert lines == Sections(b.fileTop, b.fileRequired, b.fileOptional, vars, map[]);
    forall k | 0 <= k < |lines| ensures NEWLINE !in lines[k] {
      assert LineOf(lines[k], ToAdd(vars, map[]));
    }
    SplitJoin(lines, NEWLINE);
  }

  /** Conservative: the old text is kept as it is, up to its last line, and every name read before, active
      or commented out, reads the same afterwards, whatever the values and descriptions hold. */
  lemma UpdateIsConservative(b: Banners, vars: seq<EnvVariable>, content: JsString, name: JsString)
    requires ValidBanners(b) && NamesValid(vars) && name in ReadText(content)
    ensures var updated := UpdatedText(b, vars, content);
            && content <= updated && Split(content, NEWLINE) <= Split(updated, NEWLINE)
            && name in ReadText(updated) && ReadText(updated)[name] == ReadText(content)[name]
  {
    var known := ReadText(content);
    var lines := AddedLines(b, vars, known);
    UpdateReads(b, vars, content);
    OldLinesKept(b, vars, content);
    AddedAreSections(b, vars, known);
    SectionLines([], b.addedRequired, b.addedOptional, vars, known);
    forall k | 0 <= k < |lines| ensures !Overrides(lines[k], name) {
      assert LineOf(lines[k], ToAdd(vars, known));
      if Says(lines[k]).Sets? {
        var v :| v in ToAdd(vars, known) && Says(lines[k]) == Sets(v.name, TrimEnd(ValueText(v)));
        ToAddIff(vars, known, v);
      }
    }
    ValueStands(known, lines, name);
  }

  lemma OldLinesKept(b: Banners, vars: seq<EnvVariable>, content: JsString)
    requires ValidBanners(b)
    ensures Split(content, NEWLINE) <= Split(UpdatedText(b, vars, content), NEWLINE)
  {
    var lines := AddedLines(b, vars, ReadText(content));
    AddedStartBlank(b, vars, ReadText(content));
    if lines == [] {
      assert content + Join(lines, NEWLINE) == content;
    } else {
      SplitConcat(content, NEWLINE, Join(lines[1..], NEWLINE));
      assert content + Join(lines, NEWLINE) == content + [NEWLINE] + Join(lines[1..], NEWLINE);
    }
  }

  /** What is still wanted after reading some text. */
  ghost predicate Complete(vars: seq<EnvVariable>, known: EnvMap) {
    forall v :: v in vars && Wanted(v) ==> v.name in known
  }

  lemma CompleteIff(vars: seq<EnvVariable>, known: EnvMap)
    ensures ToAdd(vars, known) == [] <==> Complete(vars, known)
  {
    if ToAdd(vars, known) != [] {
      var v := ToAdd(vars, known)[0];
      assert v in ToAdd(vars, known);
      ToAddIff(vars, known, v);
    }
    forall v | v in vars && Wanted(v) && ToAdd(vars, known) == [] ensures v.name in known {
      ToAddIff(vars, known, v);
    }
  }

  lemma NothingAddedIff(b: Banners, vars: seq<EnvVariable>, content: JsString)
    requires ValidBanners(b)
    ensures UpdatedText(b, vars, content) == content <==> Complete(vars, ReadText(content))
  {
    var lines := AddedLines(b, vars, ReadText(content));
    AddedStartBlank(b, vars, ReadText(content));
    CompleteIff(vars, ReadText(content));
    if lines == [] {
      assert content + Join(lines, NEWLINE) == content;
    } else {
      assert |Join(lines, NEWLINE)| > 0;
      assert |UpdatedText(b, vars, content)| > |content|;
    }
  }

  lemma KnownAfter(known: EnvMap, lines: seq<JsString>, name: JsString)
    ensures name in ReadLines(known, lines) <==> name in known || OneTeaches(lines, name)
  {
    KnownIff(known, lines, name);
  }

  /** Idempotent: a second update changes nothing exactly when every wanted name that was missing fits on
      its line, or is mentioned by a description that reads as an assignment. */
  lemma SecondUpdateChangesNothingIff(b: Banners, again: Banners, vars: seq<EnvVariable>, content: JsString)
    requires ValidBanners(b) && ValidBanners(again) && NamesValid(vars)
    ensures var updated := UpdatedText(b, vars, content);
            UpdatedText(again, vars, updated) == updated <==>
              forall v :: v in ToAdd(vars, ReadText(content)) ==> Learns(ToAdd(vars, ReadText(content)), v.name)
  {
    var known := ReadText(content);
    var updated := UpdatedText(b, vars, content);
    NothingAddedIff(again, vars, updated);
    UpdateReads(b, vars, content);
    AddedAreSections(b, vars, known);
    forall v | v in vars && Wanted(v)
      ensures v.name in ReadText(updated) <==> v.name in known || Learns(ToAdd(vars, known), v.name)
    {
      KnownAfter(known, AddedLines(b, vars, known), v.name);
      SectionsTeach([], b.addedRequired, b.addedOptional, vars, known, v.name);
    }
    forall v ensures v in ToAdd(vars, known) <==> v in vars && Wanted(v) && v.name !in known {
      ToAddIff(vars, known, v);
    }
  }

  lemma FittingLearns(vars: seq<EnvVariable>, v: EnvVariable)
    requires v in vars && Fits(v)
    ensures Learns(vars, v.name)
  {
    assert LearnsFrom(v, v.name);
  }

  /** In particular when every missing variable fits. */
  lemma UpdateIsIdempotent(b: Banners, again: Banners, vars: seq<EnvVariable>, content: JsString)
    requires ValidBanners(b) && ValidBanners(again) && NamesValid(vars)
    requires forall v :: v in ToAdd(vars, ReadText(content)) ==> Fits(v)
    ensures var updated := UpdatedText(b, vars, content);
            UpdatedText(again, vars, updated) == updated && Complete(vars, ReadText(updated))
  {
    var known := ReadText(content);
    forall v | v in ToAdd(vars, known) ensures Learns(ToAdd(vars, known), v.name) {
      FittingLearns(ToAdd(vars, known), v);
    }
    SecondUpdateChangesNothingIff(b, again, vars, content);
    NothingAddedIff(again, vars, UpdatedText(b, vars, content));
  }

  /** The same for a file that generate has just written. */
  lemma UpdateAfterGenerateIff(b: Banners, again: Banners, vars: seq<EnvVariable>)
    requires ValidBanners(b) && ValidBanners(again) && NamesValid(vars)
    ensures var written := NewText(b, vars);
            UpdatedText(again, vars, written) == written <==>
              forall v :: v in ToAdd(vars, map[]) ==> Learns(ToAdd(vars, map[]), v.name)
  {
    var written := NewText(b, vars);
    NothingAddedIff(again, vars, written);
    NewReads(b, vars);
    forall v | v in vars && Wanted(v)
      ensures v.name in ReadText(written) <==> Learns(ToAdd(vars, map[]), v.name)
    {
      KnownAfter(map[], NewLines(b, vars), v.name);
      SectionsTeach(b.fileTop, b.fileRequired, b.fileOptional, vars, map[], v.name);
    }
    forall v ensures v in ToAdd(vars, map[]) <==> v in vars && Wanted(v) {
      ToAddIff(vars, map[], v);
    }
  }

  lemma {:induction false} SettersAgree(known: EnvMap, lines: seq<JsString>, name: JsString, value: JsString)
    requires forall k :: 0 <= k < |lines| && Overrides(lines[k], name) ==> Says(lines[k]) == Sets(name, value)
    requires (name in known && known[name] == value) || exists k :: 0 <= k < |lines| && Overrides(lines[k], name)
    ensures name in ReadLines(known, lines) && ReadLines(known, lines)[name] == value
    decreases lines
  {
    if lines != [] {
      var rest := lines[1..];
      assert forall k :: 0 <= k < |rest| ==> rest[k] == lines[k + 1];
      if exists k :: 0 <= k < |lines| && Overrides(lines[k], name) {
        var k :| 0 <= k < |lines| && Overrides(lines[k], name);
        assert k > 0 ==> Overrides(rest[k - 1], name);
      }
      SettersAgree(ReadLine(known, lines[0]), rest, name, value);
    }
  }

  lemma {:induction false} AssignmentIsPrinted(vars: seq<EnvVariable>, v: EnvVariable)
    requires v in vars
    ensures AssignmentLine(v) in FormatAll(vars)
  {
    var front, last := vars[..|vars| - 1], vars[|vars| - 1];
    assert vars == front + [last];
    if v in front {
      AssignmentIsPrinted(front, v);
    } else {
      assert AssignmentLine(last) in Format(last);
    }
  }

  /** A required variable that is added with a default reads back as that default, sanitised and without
      trailing white space, even if a description also mentions its name. */
  lemma RequiredReadsBack(b: Banners, vars: seq<EnvVariable>, content: JsString, v: EnvVariable)
    requires ValidBanners(b) && ValidConfig(vars)
    requires v in vars && v.required && v.name !in ReadText(content) && Fits(v)
    ensures var read := ReadText(UpdatedText(b, vars, content));
            && v.name in read
            && read[v.name] == (if v.defaultValue.None? then [] else TrimEnd(SanitizeEnvValue(v.defaultValue.value)))
  {
    var known := ReadText(content);
    var lines := AddedLines(b, vars, known);
    UpdateReads(b, vars, content);
    AddedAreSections(b, vars, known);
    SectionLines([], b.addedRequired, b.addedOptional, vars, known);
    forall k | 0 <= k < |lines| && Overrides(lines[k], v.name)
      ensures Says(lines[k]) == Sets(v.name, TrimEnd(ValueText(v)))
    {
      assert LineOf(lines[k], ToAdd(vars, known));
      var w :| w in ToAdd(vars, known) && Says(lines[k]) == Sets(w.name, TrimEnd(ValueText(w)));
      ToAddIff(vars, known, w);
    }
    MissingIff(vars, known, true, v);
    AssignmentIsPrinted(Missing(vars, known, true), v);
    assert IsName(v.name);
    AssignmentReadsBack(v);
    assert AssignmentLine(v) in lines;
    SettersAgree(known, lines, v.name, TrimEnd(ValueText(v)));
  }

  lemma {:induction false} SanitizedKeepsUnits(s: JsString, c: CodeUnit)
    requires c in SanitizeEnvValue(s)
    ensures c in s
  {
    if c !in s[..1] {
      SanitizedKeepsUnits(s[1..], c);
    }
  }

  /** What the configuration has to look like for that: with no line separator in its default, a required
      variable fits when its line, trimmed, has at most 10000 units. */
  lemma FitsIff(v: EnvVariable)
    requires v.required && v.defaultValue.Some?
    requires 0x2028 !in v.defaultValue.value && 0x2029 !in v.defaultValue.value
    ensures Fits(v) <==> |Trim(AssignmentLine(v))| <= 10000
  {
    var text := ValueText(v);
    ValueTextIsOneLine(v);
    TrimEndIsPrefix(text);
    forall i | 0 <= i < |TrimEnd(text)| ensures !IsTerminator(TrimEnd(text)[i]) {
      assert TrimEnd(text)[i] == text[i] && text[i] in text;
      SanitizedKeepsUnits(v.defaultValue.value, text[i]);
    }
  }

  lemma NotLearned(missing: seq<EnvVariable>, vars: seq<EnvVariable>, name: JsString)
    requires missing == ToAdd(vars, map[]) && forall w :: w in vars ==> !LearnsFrom(w, name)
    ensures !Learns(missing, name)
  {
    forall w | w in missing ensures !LearnsFrom(w, name) {
      ToAddIff(vars, map[], w);
    }
  }

  /** Updates one after another, each with the banners of its time. */
  function Updates(bs: seq<Banners>, vars: seq<EnvVariable>, content: JsString): JsString {
    if bs == [] then content else Updates(bs[1..], vars, UpdatedText(bs[0], vars, content))
  }

  lemma LearnsFewer(some: seq<EnvVariable>, more: seq<EnvVariable>, name: JsString)
    requires forall v :: v in some ==> v in more
    requires !Learns(more, name)
    ensures !Learns(some, name)
  {
  }

  /** An update does not teach a name that no missing variable teaches, and still wants it afterwards. */
  lemma StillMissing(b: Banners, vars: seq<EnvVariable>, content: JsString, v: EnvVariable)
    requires ValidBanners(b) && NamesValid(vars)
    requires v in ToAdd(vars, ReadText(content)) && !Learns(ToAdd(vars, ReadText(content)), v.name)
    ensures var updated := UpdatedText(b, vars, content);
            && content < updated
            && v in ToAdd(vars, ReadText(updated)) && !Learns(ToAdd(vars, ReadText(updated)), v.name)
  {
    var known := ReadText(content);
    var updated := UpdatedText(b, vars, content);
    ToAddIff(vars, known, v);
    NothingAddedIff(b, vars, content);
    UpdateReads(b, vars, content);
    AddedAreSections(b, vars, known);
    KnownAfter(known, AddedLines(b, vars, known), v.name);
    SectionsTeach([], b.addedRequired, b.addedOptional, vars, known, v.name);
    ToAddIff(vars, ReadText(updated), v);
    forall w | w in ToAdd(vars, ReadText(updated)) ensures w in ToAdd(vars, known) {
      ToAddIff(vars, ReadText(updated), w);
      ToAddIff(vars, known, w);
      KnownIff(known, AddedLines(b, vars, known), w.name);
    }
    LearnsFewer(ToAdd(vars, ReadText(updated)), ToAdd(vars, known), v.name);
  }

  /** For ever: while no missing variable teaches a wanted name, each of any number of updates appends
      something and none of them makes the name known. */
  lemma {:induction false} SeparatorNeverSettles(bs: seq<Banners>, vars: seq<EnvVariable>, content: JsString,
                                                 v: EnvVariable)
    requires NamesValid(vars) && forall k :: 0 <= k < |bs| ==> ValidBanners(bs[k])
    requires v in vars && Wanted(v) && v.name !in ReadText(content)
    requires !Learns(ToAdd(vars, ReadText(content)), v.name)
    ensures var result := Updates(bs, vars, content);
            content <= result && |result| >= |content| + |bs| && v.name !in ReadText(result)
    decreases |bs|
  {
    ToAddIff(vars, ReadText(content), v);
    if bs != [] {
      var updated := UpdatedText(bs[0], vars, content);
      StillMissing(bs[0], vars, content, v);
      ToAddIff(vars, ReadText(updated), v);
      SeparatorNeverSettles(bs[1..], vars, updated, v);
    }
  }

  lemma PlainDescription()
    ensures Says([HASH, SPACE, 0x78]).Nothing?
  {
    var line: JsString := [HASH, SPACE, 0x78];
    TrimEndKeepsFront([HASH, SPACE], 0x78, []);
    assert line == [HASH, SPACE] + [0x78] + [];
    assert line[1..] == [SPACE] + [0x78];
    TrimStartDrops([SPACE], [0x78]);
    assert Active([0x78]).None?;
  }

  lemma SeparatorStays(d: JsString)
    requires d == [0x61, 0x2028, 0x62]
    ensures TrimEnd(SanitizeEnvValue(d)) == d && !OnOneLine(d)
  {
    SanitizedIsClean(d);
    assert IsTerminator(d[1]);
  }

  lemma EmptyText()
    ensures ReadText([]) == map[]
  {
    var lines: seq<JsString> := [[]];
    assert Split([], NEWLINE) == lines && lines[1..] == [] && Trim([]) == [];
    assert ReadLine(map[], lines[0]) == map[];
  }

  const SEPARATED := EnvVariable([0x41], [0x78], Some([0x61, 0x2028, 0x62]), true)

  lemma SeparatedFacts()
    ensures IsName(SEPARATED.name) && Wanted(SEPARATED) && !LearnsFrom(SEPARATED, SEPARATED.name)
  {
    SeparatorStays([0x61, 0x2028, 0x62]);
    PlainDescription();
    EscapedIsOneLine([0x78]);
    assert COMMENT + [0x78] == [HASH, SPACE, 0x78];
  }

  /** Such a variable exists: one that is required, with the default a, U+2028, b. In an empty file, next
      to any variables that do not mention it, no number of updates makes it known. */
  lemma SeparatorExample(bs: seq<Banners>, others: seq<EnvVariable>)
    requires NamesValid(others) && forall k :: 0 <= k < |bs| ==> ValidBanners(bs[k])
    requires forall w :: w in others ==> !LearnsFrom(w, SEPARATED.name)
    ensures var result := Updates(bs, others + [SEPARATED], []);
            |result| >= |bs| && SEPARATED.name !in ReadText(result)
  {
    var vars := others + [SEPARATED];
    SeparatedFacts();
    EmptyText();
    NotLearned(ToAdd(vars, map[]), vars, SEPARATED.name);
    SeparatorNeverSettles(bs, vars, [], SEPARATED);
  }

  /** An optional variable is printed so that taking the two units of the comment away sets it to its
      default, on one line, without trailing white space. */
  lemma UncommentedReadsBack(v: EnvVariable)
    requires IsName(v.name) && !v.required && v.defaultValue.Some? && Fits(v)
    ensures AssignmentLine(v)[..2] == [HASH, SPACE]
    ensures Says(AssignmentLine(v)[2..]) ==
            Sets(v.name, SanitizeEnvValue(TrimEnd(EscapeEnvComment(v.defaultValue.value))))
  {
    var text := EscapeEnvComment(v.defaultValue.value);
    var line := v.name + [EQUALS] + text;
    assert AssignmentLine(v) == COMMENT + line && (COMMENT + line)[2..] == line;
    TrimmedAssignment(v);
    assert line[0] == v.name[0];
    TrimEndKeepsFront(v.name, EQUALS, text);
    ActiveOf(v.name, TrimEnd(text));
  }

  /** A description without a line break is printed as it is, behind the two units of a comment. */
  lemma DescriptionIsKeptIff(v: EnvVariable)
    ensures DescriptionLine(v) == [HASH, SPACE] + v.description <==> NEWLINE !in v.description && CR !in v.description
  {
    EscapedIsOneLine(v.description);
    assert DescriptionLine(v)[2..] == EscapeEnvComment(v.description);
    assert ([HASH, SPACE] + v.description)[2..] == v.description;
  }

  lemma MissingSnoc(vars: seq<EnvVariable>, v: EnvVariable, known: EnvMap, required: bool)
    ensures Missing(vars + [v], known, required) ==
            Missing(vars, known, required) +
            if v.required == required && Wanted(v) && v.name !in known then [v] else []
  {
    assert (vars + [v])[..|vars|] == vars;
  }

  lemma Concat3(one: seq<EnvVariable>, two: seq<EnvVariable>, three: seq<EnvVariable>)
    ensures one + (two + three) == one + two + three
  {
  }

  /** The variables an update adds keep the order of the configuration. */
  lemma {:induction false} MissingKeepsOrder(one: seq<EnvVariable>, two: seq<EnvVariable>, known: EnvMap,
                                             required: bool)
    ensures Missing(one + two, known, required) == Missing(one, known, required) + Missing(two, known, required)
    decreases |two|
  {
    if two == [] {
      assert one + two == one;
    } else {
      var front, v := two[..|two| - 1], two[|two| - 1];
      assert two == front + [v];
      MissingKeepsOrder(one, front, known, required);
      MissingSnoc(front, v, known, required);
      MissingSnoc(one + front, v, known, required);
      Concat3(one, front, [v]);
      var last := if v.required == required && Wanted(v) && v.name !in known then [v] else [];
      Concat3(Missing(one, known, required), Missing(front, known, required), last);
    }
  }

  lemma WidenRight(front: seq<JsString>, lines: seq<JsString>, back: seq<JsString>, tail: seq<JsString>)
    ensures (front + lines + back) + tail == front + lines + (back + tail)
  {
  }

  lemma WidenLeft(lead: seq<JsString>, front: seq<JsString>, lines: seq<JsString>, back: seq<JsString>)
    ensures lead + (front + lines + back) == (lead + front) + lines + back
  {
  }

  lemma {:induction false} FormatOccurs(vars: seq<EnvVariable>, v: EnvVariable, lines: seq<JsString>)
    returns (front: seq<JsString>, back: seq<JsString>)
    requires v in vars && lines == Format(v)
    ensures FormatAll(vars) == front + lines + back
  {
    var most, last := vars[..|vars| - 1], vars[|vars| - 1];
    FormatLast(vars);
    if v == last {
      front, back := FormatAll(most), [];
    } else {
      assert v in most;
      front, back := FormatOccurs(most, v, lines);
      WidenRight(front, lines, back, Format(last));
      back := back + Format(last);
    }
  }

  lemma BlockOccurs(banner: seq<JsString>, vars: seq<EnvVariable>, v: EnvVariable, lines: seq<JsString>)
    returns (front: seq<JsString>, back: seq<JsString>)
    requires v in vars && lines == Format(v)
    ensures Block(banner, vars) == front + lines + back
  {
    front, back := FormatOccurs(vars, v, lines);
    WidenLeft(banner, front, lines, back);
    front := banner + front;
  }

  lemma EitherOccurs(one: seq<JsString>, two: seq<JsString>, front: seq<JsString>, lines: seq<JsString>,
                     back: seq<JsString>)
    ensures one == front + lines + back ==> one + two == front + lines + (back + two)
    ensures two == front + lines + back ==> one + two == (one + front) + lines + back
  {
    WidenRight(front, lines, back, two);
    WidenLeft(one, front, lines, back);
  }

  lemma MissingOccurs(b: Banners, vars: seq<EnvVariable>, known: EnvMap, v: EnvVariable, lines: seq<JsString>)
    returns (front: seq<JsString>, back: seq<JsString>)
    requires v in vars && v.name !in known && Wanted(v) && lines == Format(v)
    ensures AddedLines(b, vars, known) == front + lines + back
  {
    MissingIff(vars, known, v.required, v);
    var one := Block(b.addedRequired, Missing(vars, known, true));
    var two := Block(b.addedOptional, Missing(vars, known, false));
    assert AddedLines(b, vars, known) == one + two;
    if v.required {
      front, back := BlockOccurs(b.addedRequired, Missing(vars, known, true), v, lines);
      EitherOccurs(one, two, front, lines, back);
      back := back + two;
    } else {
      front, back := BlockOccurs(b.addedOptional, Missing(vars, known, false), v, lines);
      EitherOccurs(one, two, front, lines, back);
      front := one + front;
    }
  }

  /** What an update prints for a variable that is required, or optional with a default, and not yet
      known: its description, for an optional one its default behind a hint, and its assignment,
      commented out for an optional one, then a blank line; next to each other and in this order. */
  lemma MissingIsPrinted(b: Banners, vars: seq<EnvVariable>, known: EnvMap, v: EnvVariable)
    returns (front: seq<JsString>, back: seq<JsString>)
    requires v in vars && v.name !in known && (v.required || v.defaultValue.Some?)
    ensures var text := if v.defaultValue.None? then []
                        else if v.required then SanitizeEnvValue(v.defaultValue.value)
                        else EscapeEnvComment(v.defaultValue.value);
            var description := [0x23, 0x20] + EscapeEnvComment(v.description);
            var assignment := v.name + [0x3D] + text;
            AddedLines(b, vars, known) ==
              front + (if v.required then [description, assignment, []]
                       else [description, [0x23, 0x20] + DEFAULT_HINT + text, [0x23, 0x20] + assignment, []]) + back
  {
    var assignment := v.name + [EQUALS] + ValueText(v);
    assert [] + assignment == assignment;
    front, back := MissingOccurs(b, vars, known, v, Format(v));
  }
}
