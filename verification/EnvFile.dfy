/** Writing and updating the .env file (scripts/generate-env.ts, formatters in
    scripts/env-json-helpers.ts): a printer whose output the parser must recognise. */
module EnvFiles {
  import opened Wrappers
  import opened JsText
  import opened EnvText

  /** The default is the text of the JSON value; None is null. */
  datatype EnvVariable = EnvVariable(
    name: JsString, description: JsString, defaultValue: Option<JsString>, required: bool)

  /** Default:  */
  const DEFAULT_HINT: JsString := [0x44, 0x65, 0x66, 0x61, 0x75, 0x6C, 0x74, 0x3A, 0x20]
  const COMMENT: JsString := [HASH, SPACE]

  /** The names were validated against the name pattern and found to be distinct. */
  ghost predicate ValidConfig(vars: seq<EnvVariable>) {
    && (forall k :: 0 <= k < |vars| ==> IsName(vars[k].name))
    && (forall i, k :: 0 <= i < k < |vars| ==> vars[i].name != vars[k].name)
  }

  function NamesBefore(vars: seq<EnvVariable>, k: nat): set<JsString>
    requires k <= |vars|
  {
    set i | 0 <= i < k :: vars[i].name
  }

  function RepeatedNames(vars: seq<EnvVariable>, k: nat): seq<JsString>
    requires k <= |vars|
  {
    if k == 0 then []
    else RepeatedNames(vars, k - 1) + if vars[k - 1].name in NamesBefore(vars, k - 1) then [vars[k - 1].name] else []
  }

  /** Every repeated occurrence is reported, in order; so nothing is reported exactly when the names are
      distinct. */
  method FindDuplicateNames(vars: seq<EnvVariable>) returns (duplicates: seq<JsString>)
    ensures duplicates == RepeatedNames(vars, |vars|)
    ensures duplicates == [] <==> forall i, k :: 0 <= i < k < |vars| ==> vars[i].name != vars[k].name
  {
    var seen: set<JsString> := {};
    duplicates := [];
    for k := 0 to |vars|
      invariant seen == NamesBefore(vars, k)
      invariant duplicates == RepeatedNames(vars, k)
      invariant duplicates == [] <==> forall i, j :: 0 <= i < j < k ==> vars[i].name != vars[j].name
    {
      if vars[k].name in seen {
        duplicates := duplicates + [vars[k].name];
      }
      seen := seen + {vars[k].name};
      assert NamesBefore(vars, k + 1) == NamesBefore(vars, k) + {vars[k].name};
    }
  }

  function DescriptionLine(v: EnvVariable): JsString {
    COMMENT + EscapeEnvComment(v.description)
  }

  function ValueText(v: EnvVariable): JsString {
    if v.defaultValue.None? then []
    else if v.required then SanitizeEnvValue(v.defaultValue.value)
    else EscapeEnvComment(v.defaultValue.value)
  }

  function AssignmentLine(v: EnvVariable): JsString {
    (if v.required then [] else COMMENT) + (v.name + [EQUALS] + ValueText(v))
  }

  function FormatRequiredVar(v: EnvVariable): seq<JsString> {
    [DescriptionLine(v), AssignmentLine(v), []]
  }

  function FormatOptionalVar(v: EnvVariable): seq<JsString> {
    [DescriptionLine(v), COMMENT + DEFAULT_HINT + ValueText(v), AssignmentLine(v), []]
  }

  function Format(v: EnvVariable): seq<JsString> {
    if v.required then FormatRequiredVar(v) else FormatOptionalVar(v)
  }

  function FormatAll(vars: seq<EnvVariable>): seq<JsString> {
    if vars == [] then [] else FormatAll(vars[..|vars| - 1]) + Format(vars[|vars| - 1])
  }

  /** The banner lines around the variables; the ones of an update hold its time. */
  datatype Banners = Banners(fileTop: seq<JsString>, fileRequired: seq<JsString>, fileOptional: seq<JsString>,
                             addedRequired: seq<JsString>, addedOptional: seq<JsString>)

  predicate IsBanner(lines: seq<JsString>) {
    forall k :: 0 <= k < |lines| ==> NEWLINE !in lines[k] && Says(lines[k]).Nothing?
  }

  /** They are blank or comments without an assignment; a new file starts with one, and an update with a
      blank line. */
  predicate ValidBanners(b: Banners) {
    && IsBanner(b.fileTop) && IsBanner(b.fileRequired) && IsBanner(b.fileOptional)
    && IsBanner(b.addedRequired) && IsBanner(b.addedOptional)
    && |b.fileTop| > 0 && |b.addedRequired| > 1 && |b.addedOptional| > 1
    && b.addedRequired[0] == [] && b.addedOptional[0] == []
  }

  function Block(banner: seq<JsString>, vars: seq<EnvVariable>): seq<JsString> {
    if vars == [] then [] else banner + FormatAll(vars)
  }

  predicate Wanted(v: EnvVariable) {
    v.required || v.defaultValue.Some?
  }

  /** The wanted variables of one kind that are not yet known, in their order. */
  function Missing(vars: seq<EnvVariable>, known: EnvMap, required: bool): seq<EnvVariable> {
    if vars == [] then []
    else
      var v := vars[|vars| - 1];
      Missing(vars[..|vars| - 1], known, required) +
      if v.required == required && Wanted(v) && v.name !in known then [v] else []
  }

  function NewLines(b: Banners, vars: seq<EnvVariable>): seq<JsString> {
    b.fileTop + Block(b.fileRequired, Missing(vars, map[], true)) + Block(b.fileOptional, Missing(vars, map[], false))
  }

  function AddedLines(b: Banners, vars: seq<EnvVariable>, known: EnvMap): seq<JsString> {
    Block(b.addedRequired, Missing(vars, known, true)) + Block(b.addedOptional, Missing(vars, known, false))
  }

  function NewText(b: Banners, vars: seq<EnvVariable>): JsString {
    Join(NewLines(b, vars), NEWLINE)
  }

  function UpdatedText(b: Banners, vars: seq<EnvVariable>, content: JsString): JsString {
    content + Join(AddedLines(b, vars, ReadText(content)), NEWLINE)
  }

  function AfterUpdate(b: Banners, vars: seq<EnvVariable>, content: Option<JsString>): JsString {
    if content.None? then NewText(b, vars) else UpdatedText(b, vars, content.value)
  }

  /** The file on disk; None while it does not exist. */
  class EnvFile {
    var content: Option<JsString>

    method GenerateNewEnvFile(b: Banners, vars: seq<EnvVariable>)
      modifies this
      ensures content == Some(NewText(b, vars))
    {
      var requiredVars := Missing(vars, map[], true);
      var optionalVars := Missing(vars, map[], false);
      var lines := b.fileTop;
      lines := PushBlock(lines, b.fileRequired, requiredVars);
      lines := PushBlock(lines, b.fileOptional, optionalVars);
      content := Some(Join(lines, NEWLINE));
    }

    /** Fails, changing nothing, when the file is there and --force was not given. */
    method GenerateEnvFile(b: Banners, vars: seq<EnvVariable>, force: bool) returns (ok: bool)
      modifies this
      ensures ok <==> old(content).None? || force
      ensures content == if ok then Some(NewText(b, vars)) else old(content)
    {
      if content.Some? && !force { return false; }
      GenerateNewEnvFile(b, vars);
      return true;
    }

    method UpdateEnvFile(b: Banners, vars: seq<EnvVariable>)
      modifies this
      ensures content == Some(AfterUpdate(b, vars, old(content)))
    {
      if content.None? {
        GenerateNewEnvFile(b, vars);
        return;
      }
      var existingVars := ParseExistingEnv(true, content.value);
      var missingRequired := Missing(vars, existingVars, true);
      var missingOptional := Missing(vars, existingVars, false);
      if |missingRequired| == 0 && |missingOptional| == 0 {
        assert AddedLines(b, vars, existingVars) == [];
        assert content.value + [] == content.value;
        return;
      }
      var linesToAdd := PushBlock([], b.addedRequired, missingRequired);
      linesToAdd := PushBlock(linesToAdd, b.addedOptional, missingOptional);
      assert [] + Block(b.addedRequired, missingRequired) == Block(b.addedRequired, missingRequired);
      content := Some(content.value + Join(linesToAdd, NEWLINE));
    }
  }

  lemma FormatAllSnoc(vars: seq<EnvVariable>, k: nat)
    requires k < |vars|
    ensures FormatAll(vars[..k + 1]) == FormatAll(vars[..k]) + Format(vars[k])
  {
    assert vars[..k + 1][..k] == vars[..k];
  }

  lemma Assoc(a: seq<JsString>, b: seq<JsString>, c: seq<JsString>, d: seq<JsString>)
    ensures a + (b + c) + d == a + (b + (c + d))
  {
  }

  /** One section: its banner, then the lines of each of its variables; nothing if it has none. */
  method PushBlock(before: seq<JsString>, banner: seq<JsString>, vars: seq<EnvVariable>) returns (lines: seq<JsString>)
    ensures lines == before + Block(banner, vars)
  {
    lines := before;
    if |vars| > 0 {
      lines := lines + banner;
      for k := 0 to |vars|
        invariant lines == before + (banner + FormatAll(vars[..k]))
      {
        FormatAllSnoc(vars, k);
        Assoc(before, banner, FormatAll(vars[..k]), Format(vars[k]));
        lines := lines + Format(vars[k]);
      }
      assert vars[..|vars|] == vars;
    }
  }
}
