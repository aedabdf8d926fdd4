/**
 Role profiles in `local_operator/agent_profiles.py`: a profile's tool list, effort and delegation ride
 in an agent's tags, and installing a packaged seed has to leave a row that reads back as that seed.
 */
module RoleTags {
  import opened Prelude
  import opened PyStrings

  const MAX_INSTRUCTIONS: nat := 8_000

  // ----- tool lists -----

  function Stripped(parts: seq<string>): (names: seq<string>)
    ensures |names| == |parts|
  {
    seq(|parts|, i requires 0 <= i < |parts| => Strip(parts[i]))
  }

  /** Non-empty names, each at its first place. */
  function Distinct(names: seq<string>): seq<string> {
    if names == [] then []
    else
      var before, last := Distinct(names[..|names| - 1]), names[|names| - 1];
      if last == "" || last in before then before else before + [last]
  }

  function OrNone(names: seq<string>): Option<seq<string>> {
    if names == [] then None else Some(names)
  }

  /** `_as_tuple` of a list. */
  function ListAsTuple(parts: seq<string>): Option<seq<string>> {
    OrNone(Distinct(Stripped(parts)))
  }

  /** `_as_tuple` of a string. */
  function TextAsTuple(text: string): Option<seq<string>> {
    ListAsTuple(SplitOn(text, ','))
  }

  predicate IsName(name: string) {
    name != "" && IsTrimmed(name)
  }

  ghost predicate NoRepeats(names: seq<string>) {
    forall i, j :: 0 <= i < j < |names| ==> names[i] != names[j]
  }

  /** Trimmed, non-empty, pairwise distinct: what `_as_tuple` makes. */
  ghost predicate IsToolList(names: seq<string>) {
    (forall name :: name in names ==> IsName(name)) && NoRepeats(names)
  }

  predicate CommaFree(names: seq<string>) {
    forall name :: name in names ==> ',' !in name
  }

  lemma {:induction false} DistinctIs(names: seq<string>)
    ensures NoRepeats(Distinct(names))
    ensures forall name :: name in Distinct(names) <==> name in names && name != ""
  {
    if names != [] {
      var init, last := names[..|names| - 1], names[|names| - 1];
      DistinctIs(init);
      assert names == init + [last];
    }
  }

  lemma {:induction false} DistinctOfDistinct(names: seq<string>)
    requires NoRepeats(names) && "" !in names
    ensures Distinct(names) == names
  {
    if names != [] {
      var init, last := names[..|names| - 1], names[|names| - 1];
      DistinctOfDistinct(init);
      assert names == init + [last];
    }
  }

  lemma StrippedIs(parts: seq<string>)
    ensures forall name :: name in Stripped(parts) ==>
              IsTrimmed(name) && exists part :: part in parts && name == Strip(part)
    ensures (forall part :: part in parts ==> IsTrimmed(part)) ==> Stripped(parts) == parts
  {
    forall i | 0 <= i < |parts|
      ensures IsTrimmed(Stripped(parts)[i]) && (IsTrimmed(parts[i]) ==> Stripped(parts)[i] == parts[i])
      ensures parts[i] in parts
    {
      StripIs(parts[i]);
    }
  }

  /** What `_as_tuple` makes is a tool list; made from a string, its names have no comma. */
  lemma AsTupleIsToolList(parts: seq<string>, text: string)
    ensures ListAsTuple(parts).Some? ==> IsToolList(ListAsTuple(parts).value)
    ensures TextAsTuple(text).Some? ==> IsToolList(TextAsTuple(text).value) && CommaFree(TextAsTuple(text).value)
  {
    StrippedIs(parts);
    DistinctIs(Stripped(parts));
    var pieces := SplitOn(text, ',');
    SplitPartsLackSeparator(text, ',');
    StrippedIs(pieces);
    DistinctIs(Stripped(pieces));
    if TextAsTuple(text).Some? {
      forall name | name in TextAsTuple(text).value
        ensures ',' !in name
      {
        var part :| part in pieces && name == Strip(part);
        StripIs(part);
      }
    }
  }

  /** Joining with commas and reading back gives the same names exactly when they are a comma-free tool list. */
  lemma ToolsRoundTrip(names: seq<string>)
    requires names != []
    ensures TextAsTuple(JoinWith(names, ',')) == Some(names) <==> IsToolList(names) && CommaFree(names)
  {
    AsTupleIsToolList([], JoinWith(names, ','));
    if IsToolList(names) && CommaFree(names) {
      SplitInvertsJoin(names, ',');
      StrippedIs(names);
      assert "" !in names;
      DistinctOfDistinct(names);
    }
  }

  // ----- tags -----

  /** The fields that ride in tags. */
  datatype Fields = Fields(tools: Option<seq<string>>, effort: Option<string>, delegate: bool)

  predicate HasTools(fields: Fields) {
    fields.tools.Some? && fields.tools.value != []
  }

  predicate HasEffort(fields: Fields) {
    fields.effort.Some? && fields.effort.value != ""
  }

  /** `seed_tags`. */
  function SeedTags(fields: Fields): seq<string> {
    ["role"] +
    (if HasTools(fields) then ["tools:" + JoinWith(fields.tools.value, ',')] else []) +
    (if HasEffort(fields) then ["effort:" + fields.effort.value] else []) +
    (if fields.delegate then ["delegate:yes"] else [])
  }

  method BuildSeedTags(fields: Fields) returns (tags: seq<string>)
    ensures tags == SeedTags(fields)
  {
    tags := ["role"];
    if fields.tools.Some? && fields.tools.value != [] {
      tags := tags + ["tools:" + JoinWith(fields.tools.value, ',')];
    }
    if fields.effort.Some? && fields.effort.value != "" {
      tags := tags + ["effort:" + fields.effort.value];
    }
    if fields.delegate {
      tags := tags + ["delegate:yes"];
    }
  }

  /** The index of the first colon, or the length. */
  function Colon(tag: string): (i: nat)
    ensures i <= |tag| && ':' !in tag[..i] && (i < |tag| ==> tag[i] == ':')
    ensures ':' !in tag ==> i == |tag|
  {
    if tag == "" || tag[0] == ':' then 0
    else
      var i := 1 + Colon(tag[1..]);
      assert tag[..i] == [tag[0]] + tag[1..][..i - 1];
      i
  }

  /** One tag read into the fields; a later tag overrides an earlier one. */
  function ReadTag(fields: Fields, tag: string): Fields {
    var i := Colon(tag);
    if i == |tag| then fields
    else
      var key, value := Lower(Strip(tag[..i])), Strip(tag[i + 1..]);
      if key == "tools" then fields.(tools := TextAsTuple(value))
      else if key == "effort" then fields.(effort := if value == "" then None else Some(value))
      else if key == "delegate" then fields.(delegate := Lower(value) in {"1", "true", "yes", "on"})
      else fields
  }

  const BLANK := Fields(None, None, false)

  function ReadTags(tags: seq<string>): Fields {
    if tags == [] then BLANK else ReadTag(ReadTags(tags[..|tags| - 1]), tags[|tags| - 1])
  }

  /** The loop of `profile_from_agent`. */
  method ReadAllTags(tags: seq<string>) returns (fields: Fields)
    ensures fields == ReadTags(tags)
  {
    fields := BLANK;
    for n := 0 to |tags|
      invariant fields == ReadTags(tags[..n])
    {
      assert tags[..n + 1][..n] == tags[..n];
      var tag := tags[n];
      var i := Colon(tag);
      if i == |tag| {
        continue;
      }
      var key, value := Lower(Strip(tag[..i])), Strip(tag[i + 1..]);
      if key == "tools" {
        var tools := TextAsTuple(value);
        fields := fields.(tools := tools);
      } else if key == "effort" {
        fields := fields.(effort := if value == "" then None else Some(value));
      } else if key == "delegate" {
        fields := fields.(delegate := Lower(value) in {"1", "true", "yes", "on"});
      }
    }
    assert tags[..|tags|] == tags;
  }

  /** An absent or empty list, or comma-free tool names. */
  ghost predicate ToolsCarry(tools: Option<seq<string>>) {
    tools.None? || tools.value == [] || (IsToolList(tools.value) && CommaFree(tools.value))
  }

  predicate EffortCarries(effort: Option<string>) {
    effort.None? || IsTrimmed(effort.value)
  }

  /** Empty and absent are one. */
  function Normal(fields: Fields): Fields {
    var tools := if HasTools(fields) then fields.tools else None;
    var effort := if HasEffort(fields) then fields.effort else None;
    Fields(tools, effort, fields.delegate)
  }

  lemma PartsOf(key: string, value: string)
    requires ':' !in key
    ensures var tag := key + [':'] + value; Colon(tag) == |key| && tag[..|key|] == key && tag[|key| + 1..] == value
  {
    var tag := key + [':'] + value;
    var i := Colon(tag);
    assert tag[|key|] == ':' && forall j :: 0 <= j < |key| ==> tag[j] == key[j];
    assert forall j :: 0 <= j < i ==> tag[..i][j] == tag[j];
  }

  lemma WordIsItself(word: string)
    requires word in {"tools", "effort", "delegate", "seed", "yes"}
    ensures Lower(Strip(word)) == word && Strip(word) == word
  {
    StripIs(word);
    assert IsTrimmed(word);
    assert forall i :: 0 <= i < |word| ==> !('A' <= word[i] <= 'Z');
    assert Lower(word) == word;
  }

  /**
   How any tag is read. One without a colon says nothing; else what precedes the first colon, in any case and with
   any white space around it, tells which field the rest sets, and any other key says nothing.
   */
  lemma ReadTagExactly(fields: Fields, key: string, value: string)
    requires ':' !in key
    ensures ReadTag(fields, key) == fields
    ensures var read, word, text := ReadTag(fields, key + [':'] + value), Lower(Strip(key)), Strip(value);
            && (word == "tools" ==> read == fields.(tools := TextAsTuple(text)))
            && (word == "effort" ==> read == fields.(effort := if text == "" then None else Some(text)))
            && (word == "delegate" ==> read == fields.(delegate := Lower(text) in {"1", "true", "yes", "on"}))
            && (word !in {"tools", "effort", "delegate"} ==> read == fields)
  {
    PartsOf(key, value);
  }

  lemma ReadToolsTag(fields: Fields, names: seq<string>)
    ensures ReadTag(fields, "tools:" + JoinWith(names, ',')) ==
            fields.(tools := TextAsTuple(Strip(JoinWith(names, ','))))
  {
    var value := JoinWith(names, ',');
    assert "tools:" + value == "tools" + [':'] + value;
    PartsOf("tools", value);
    WordIsItself("tools");
  }

  lemma ReadEffortTag(fields: Fields, effort: string)
    ensures ReadTag(fields, "effort:" + effort) ==
            fields.(effort := if Strip(effort) == "" then None else Some(Strip(effort)))
  {
    assert "effort:" + effort == "effort" + [':'] + effort;
    PartsOf("effort", effort);
    WordIsItself("effort");
  }

  lemma ReadDelegateTag(fields: Fields)
    ensures ReadTag(fields, "delegate:yes") == fields.(delegate := true)
  {
    assert "delegate:yes" == "delegate" + [':'] + "yes";
    PartsOf("delegate", "yes");
    WordIsItself("delegate");
    WordIsItself("yes");
  }

  lemma ReadOtherTag(fields: Fields, name: string)
    ensures ReadTag(fields, "role") == fields && ReadTag(fields, "seed:" + name) == fields
  {
    var i := Colon("role");
    assert "role"[0] == 'r' && "role"[1] == 'o' && "role"[2] == 'l' && "role"[3] == 'e';
    assert "seed:" + name == "seed" + [':'] + name;
    PartsOf("seed", name);
    WordIsItself("seed");
  }

  lemma ReadSnoc(tags: seq<string>, tag: string)
    ensures ReadTags(tags + [tag]) == ReadTag(ReadTags(tags), tag)
  {
  }

  /** What an installed seed's tags read back as. */
  function ReadBack(fields: Fields): Fields {
    Fields(if HasTools(fields) then TextAsTuple(Strip(JoinWith(fields.tools.value, ','))) else None,
           if HasEffort(fields) && Strip(fields.effort.value) != "" then Some(Strip(fields.effort.value)) else None,
           fields.delegate)
  }

  lemma ReadSeedTags(fields: Fields, name: string)
    ensures ReadTags(SeedTags(fields) + ["seed:" + name]) == ReadBack(fields)
  {
    hide Strip, TextAsTuple, ReadTag;
    var tags: seq<string> := [];
    var read := BLANK;
    ReadSnoc(tags, "role");
    ReadOtherTag(read, name);
    tags := tags + ["role"];
    if HasTools(fields) {
      ReadToolsTag(read, fields.tools.value);
      ReadSnoc(tags, "tools:" + JoinWith(fields.tools.value, ','));
      tags := tags + ["tools:" + JoinWith(fields.tools.value, ',')];
      read := read.(tools := TextAsTuple(Strip(JoinWith(fields.tools.value, ','))));
    }
    assert ReadTags(tags) == read;
    if HasEffort(fields) {
      ReadEffortTag(read, fields.effort.value);
      ReadSnoc(tags, "effort:" + fields.effort.value);
      tags := tags + ["effort:" + fields.effort.value];
      var e := Strip(fields.effort.value);
      read := read.(effort := if e == "" then None else Some(e));
    }
    assert ReadTags(tags) == read;
    if fields.delegate {
      ReadDelegateTag(read);
      ReadSnoc(tags, "delegate:yes");
      tags := tags + ["delegate:yes"];
      read := read.(delegate := true);
    }
    assert ReadTags(tags) == read;
    assert tags == SeedTags(fields);
    ReadOtherTag(read, name);
    ReadSnoc(tags, "seed:" + name);
  }

  lemma {:induction false} JoinIsTrimmed(names: seq<string>)
    requires names != [] && forall name :: name in names ==> IsName(name)
    ensures IsName(JoinWith(names, ','))
  {
    assert names[0] in names;
    if |names| > 1 {
      JoinIsTrimmed(names[1..]);
    }
  }

  /**
   The fields survive the trip through the tags of a registry row exactly when the tools are a
   comma-free tool list (or none) and the effort is trimmed (or none).
   */
  lemma FieldsRoundTrip(fields: Fields, name: string)
    ensures ReadTags(SeedTags(fields) + ["seed:" + name]) == Normal(fields) <==>
            ToolsCarry(fields.tools) && EffortCarries(fields.effort)
  {
    ReadSeedTags(fields, name);
    if HasEffort(fields) {
      StripIs(fields.effort.value);
    }
    if HasTools(fields) {
      var names := fields.tools.value;
      var text := JoinWith(names, ',');
      AsTupleIsToolList([], Strip(text));
      if IsToolList(names) && CommaFree(names) {
        JoinIsTrimmed(names);
        StripIs(text);
        ToolsRoundTrip(names);
      }
    }
  }

  // ----- profiles, rows and the registry -----

  datatype Profile = Profile(
    name: string, description: string, whenToUse: string, instructions: string, fields: Fields, model: string,
    hosting: string)

  /** A registry row; `model`, `hosting` and `securityPrompt` are the operator's. */
  datatype Row = Row(
    id: string, name: string, description: string, tags: seq<string>, categories: seq<string>, prompt: string,
    model: string, hosting: string, securityPrompt: string)

  function Bounded(text: string): string {
    if |text| <= MAX_INSTRUCTIONS then text else text[..MAX_INSTRUCTIONS]
  }

  /** `profile_from_agent`. */
  function ProfileOf(row: Row): Profile {
    Profile(row.name, row.description, row.description, Bounded(row.prompt), ReadTags(row.tags), row.model, row.hosting)
  }

  function FirstOf(a: string, b: string): string {
    if a != "" then a else b
  }

  datatype Field = Instructions | Description | Tools | Effort | Delegate

  /** `seed_divergence`. */
  function Divergence(profile: Profile, seed: Profile): seq<Field> {
    var mine, its := Normal(profile.fields), Normal(seed.fields);
    Mark(Strip(seed.instructions) != Strip(profile.instructions), Instructions) +
    Mark(Strip(FirstOf(seed.whenToUse, seed.description)) != Strip(FirstOf(profile.description, profile.whenToUse)),
         Description) +
    Mark(mine.tools != its.tools, Tools) + Mark(mine.effort != its.effort, Effort) +
    Mark(mine.delegate != its.delegate, Delegate)
  }

  function Mark(differs: bool, field: Field): seq<Field> {
    if differs then [field] else []
  }

  lemma MarksAre(a: bool, b: bool, c: bool, d: bool, e: bool)
    ensures var marks :=
              Mark(a, Instructions) + Mark(b, Description) + Mark(c, Tools) + Mark(d, Effort) + Mark(e, Delegate);
            && (Instructions in marks <==> a) && (Description in marks <==> b) && (Tools in marks <==> c)
            && (Effort in marks <==> d) && (Delegate in marks <==> e)
            && (marks == [] <==> !a && !b && !c && !d && !e)
  {
  }

  function InstalledTags(seed: Profile): seq<string> {
    SeedTags(seed.fields) + ["seed:" + seed.name]
  }

  /** The row an installation writes: everything the seed owns, and nothing of the operator's. */
  function Written(row: Row, seed: Profile): Row {
    row.(description := FirstOf(seed.whenToUse, seed.description), tags := InstalledTags(seed), categories := ["role"],
         prompt := seed.instructions)
  }

  predicate IsRole(row: Row) {
    exists tag :: tag in row.tags && Lower(Strip(tag)) == "role"
  }

  /** `get_agent_by_name`: the first row of that name, or the number of rows. */
  function FindRow(rows: seq<Row>, name: string): (i: nat)
    ensures i <= |rows|
    ensures i < |rows| ==> rows[i].name == name
    ensures forall j :: 0 <= j < i ==> rows[j].name != name
  {
    if rows == [] || rows[0].name == name then 0 else 1 + FindRow(rows[1..], name)
  }

  datatype Installed = NameTaken | AlreadyThere(profile: Profile) | Done(profile: Profile)

  /** The row an installation starts from: the one of that name, or a new one. */
  function BaseRow(rows: seq<Row>, seed: Profile, id: string): (row: Row)
    ensures row.name == seed.name
  {
    var i := FindRow(rows, seed.name);
    if i < |rows| then rows[i] else Row(id, seed.name, "", [], [], "", "", "", "")
  }

  /** A row stored under its name: in place of the first of that name, or at the end. */
  function Stored(rows: seq<Row>, row: Row): seq<Row> {
    var i := FindRow(rows, row.name);
    if i == |rows| then rows + [row] else rows[i := row]
  }

  /** `install_seed`. */
  function Install(rows: seq<Row>, seed: Profile, overwrite: bool, id: string): (Installed, seq<Row>) {
    var i := FindRow(rows, seed.name);
    var row := Written(BaseRow(rows, seed, id), seed);
    if i == |rows| || overwrite then (Done(ProfileOf(row)), Stored(rows, row))
    else if IsRole(rows[i]) then (AlreadyThere(ProfileOf(rows[i])), rows)
    else (NameTaken, rows)
  }

  /**
   What installing does. A name held by something that is no role is refused, and a role of that name reported as it
   is, unless overwriting was asked for; then, and when the name is free, exactly one row is written, under that name.
   */
  lemma InstallExactly(rows: seq<Row>, seed: Profile, overwrite: bool, id: string)
    ensures var (installed, rows') := Install(rows, seed, overwrite, id);
            var i := FindRow(rows, seed.name);
            var taken := i < |rows|;
            && (installed == NameTaken <==> taken && !overwrite && !HasRoleTag(rows[i]))
            && (installed.AlreadyThere? <==> taken && !overwrite && HasRoleTag(rows[i]))
            && (installed.AlreadyThere? ==> installed.profile == ProfileOf(rows[i]))
            && (!installed.Done? ==> rows' == rows)
            && (installed.Done? ==>
                  && |rows'| == (if taken then |rows| else |rows| + 1)
                  && (forall j :: 0 <= j < |rows| && j != i ==> rows'[j] == rows[j])
                  && IsWritten(rows'[i], seed) && installed.profile == ProfileOf(rows'[i])
                  && (!taken ==> IsBlankOfOperator(rows'[i], id)))
  {
    if FindRow(rows, seed.name) < |rows| {
      RolesAreTagged(rows[FindRow(rows, seed.name)]);
    }
    hide SeedTags, ReadTags, IsRole, HasRoleTag, FindRow, ProfileOf;
    StoredIs(rows, Written(BaseRow(rows, seed, id), seed));
  }

  /** One of the tags is `role`, in any case and with any white space around it. */
  predicate HasRoleTag(row: Row) {
    exists k :: 0 <= k < |row.tags| && Lower(Strip(row.tags[k])) == "role"
  }

  lemma RolesAreTagged(row: Row)
    ensures IsRole(row) <==> HasRoleTag(row)
  {
    if tag :| tag in row.tags && Lower(Strip(tag)) == "role" {
      var k :| 0 <= k < |row.tags| && row.tags[k] == tag;
    }
  }

  /** The row found for a name is there exactly when some row has the name. */
  lemma FindRowFinds(rows: seq<Row>, name: string)
    ensures FindRow(rows, name) < |rows| <==> exists row :: row in rows && row.name == name
  {
    var i := FindRow(rows, name);
    if i < |rows| {
      assert rows[i] in rows;
    }
    if row :| row in rows && row.name == name {
      var j :| 0 <= j < |rows| && rows[j] == row;
    }
  }

  /** A new row leaves the operator's fields empty. */
  predicate IsBlankOfOperator(row: Row, id: string) {
    row.id == id && row.model == "" && row.hosting == "" && row.securityPrompt == ""
  }

  /** Everything the seed owns is in the row. */
  predicate IsWritten(row: Row, seed: Profile) {
    && row.name == seed.name && row.prompt == seed.instructions && row.categories == ["role"]
    && row.description == (if seed.whenToUse != "" then seed.whenToUse else seed.description)
    && row.tags == SeedTags(seed.fields) + ["seed:" + seed.name]
  }

  /** `seed_divergence` names exactly the fields that differ, empty and absent being one. */
  lemma DivergenceExactly(profile: Profile, seed: Profile)
    ensures var d := Divergence(profile, seed);
            var mine, its := Normal(profile.fields), Normal(seed.fields);
            var shown := if profile.description != "" then profile.description else profile.whenToUse;
            var meant := if seed.whenToUse != "" then seed.whenToUse else seed.description;
            && (Instructions in d <==> Strip(seed.instructions) != Strip(profile.instructions))
            && (Description in d <==> Strip(meant) != Strip(shown))
            && (Tools in d <==> mine.tools != its.tools)
            && (Effort in d <==> mine.effort != its.effort)
            && (Delegate in d <==> profile.fields.delegate != seed.fields.delegate)
            && (d == [] <==> Instructions !in d && Description !in d && Tools !in d && Effort !in d && Delegate !in d)
  {
    hide Strip, HasTools, HasEffort, Mark;
    var mine, its := Normal(profile.fields), Normal(seed.fields);
    MarksAre(Strip(seed.instructions) != Strip(profile.instructions),
             Strip(FirstOf(seed.whenToUse, seed.description)) != Strip(FirstOf(profile.description, profile.whenToUse)),
             mine.tools != its.tools, mine.effort != its.effort, mine.delegate != its.delegate);
  }

  /** A profile shows its row: the one description twice, the fields its tags carry, and the first 8000 characters. */
  lemma ProfileShowsItsRow(row: Row)
    ensures var profile := ProfileOf(row);
            && profile.name == row.name && profile.model == row.model && profile.hosting == row.hosting
            && profile.description == profile.whenToUse == row.description
            && profile.fields == ReadTags(row.tags) && profile.instructions <= row.prompt
            && |profile.instructions| == if |row.prompt| < 8000 then |row.prompt| else 8000
  {
  }

  class Registry {
    var rows: seq<Row>

    constructor (rows: seq<Row>)
      ensures this.rows == rows
    {
      this.rows := rows;
    }

    method GetAgentByName(name: string) returns (i: nat)
      ensures i == FindRow(rows, name)
    {
      i := 0;
      while i < |rows| && rows[i].name != name
        invariant i <= |rows| && FindRow(rows, name) == i + FindRow(rows[i..], name)
      {
        assert rows[i..][1..] == rows[i + 1..];
        i := i + 1;
      }
    }

    method InstallSeed(seed: Profile, overwrite: bool, id: string) returns (installed: Installed)
      modifies this
      ensures (installed, rows) == Install(old(rows), seed, overwrite, id)
    {
      hide ReadTags, SeedTags;
      var i := GetAgentByName(seed.name);
      var present := i < |rows|;
      if present && !overwrite {
        if !IsRole(rows[i]) {
          return NameTaken;
        }
        return AlreadyThere(ProfileOf(rows[i]));
      }
      var tags := BuildSeedTags(seed.fields);
      tags := tags + ["seed:" + seed.name];
      var description := FirstOf(seed.whenToUse, seed.description);
      if !present {
        rows := rows + [Row(id, seed.name, description, tags, ["role"], "", "", "", "")];
      } else {
        rows := rows[i := rows[i].(description := description, tags := tags, categories := ["role"])];
      }
      rows := rows[i := rows[i].(prompt := seed.instructions)];
      ghost var row := Written(BaseRow(old(rows), seed, id), seed);
      assert rows[i] == row;
      assert rows == if present then old(rows)[i := row] else old(rows) + [row];
      return Done(ProfileOf(rows[i]));
    }
  }

  // ----- what an installation leaves -----

  lemma DivergenceIs(profile: Profile, seed: Profile)
    requires profile.instructions == seed.instructions
    requires FirstOf(profile.description, profile.whenToUse) == FirstOf(seed.whenToUse, seed.description)
    requires profile.fields.delegate == seed.fields.delegate
    ensures var d := Divergence(profile, seed);
            && (d == [] <==> Normal(profile.fields) == Normal(seed.fields))
            && Instructions !in d && Description !in d && Delegate !in d
  {
    DivergenceExactly(profile, seed);
    hide Strip, Divergence, HasTools, HasEffort;
  }

  /** A written row diverges from its seed in nothing but fields that cannot ride in tags. */
  lemma WrittenRowMatches(row: Row, seed: Profile)
    requires |seed.instructions| <= MAX_INSTRUCTIONS
    ensures var d := Divergence(ProfileOf(Written(row, seed)), seed);
            && (d == [] <==> ToolsCarry(seed.fields.tools) && EffortCarries(seed.fields.effort))
            && Instructions !in d && Description !in d && Delegate !in d
  {
    hide Divergence, Strip, TextAsTuple, SeedTags, ReadTags, ToolsCarry, EffortCarries;
    FieldsRoundTrip(seed.fields, seed.name);
    ReadSeedTags(seed.fields, seed.name);
    DivergenceIs(ProfileOf(Written(row, seed)), seed);
    var read := ReadBack(seed.fields);
    assert Normal(read) == read by {
      if HasTools(seed.fields) {
        ReadToolsNotEmpty(Strip(JoinWith(seed.fields.tools.value, ',')));
      }
    }
  }

  lemma ReadToolsNotEmpty(text: string)
    ensures TextAsTuple(text) != Some([])
  {
  }

  /**
   After any installation or overwrite that wrote something the role shows no divergence from its seed,
   exactly when the seed's tools are a comma-free tool list and its effort is trimmed; its name leads to
   the row written, which is a role.
   */
  lemma InstalledRoleMatchesSeed(rows: seq<Row>, seed: Profile, overwrite: bool, id: string)
    requires |seed.instructions| <= MAX_INSTRUCTIONS && Install(rows, seed, overwrite, id).0.Done?
    ensures var (installed, rows') := Install(rows, seed, overwrite, id);
            var i := FindRow(rows, seed.name);
            && (Divergence(installed.profile, seed) == [] <==>
                ToolsCarry(seed.fields.tools) && EffortCarries(seed.fields.effort))
            && i < |rows'| && FindRow(rows', seed.name) == i
            && installed.profile == ProfileOf(rows'[i]) && IsRole(rows'[i])
  {
    var base := BaseRow(rows, seed, id);
    hide Divergence, ProfileOf, ToolsCarry, Stored, IsRole, FindRow;
    StoredIs(rows, Written(base, seed));
    WrittenRowMatches(base, seed);
    WrittenIsRole(base, seed);
  }

  lemma {:induction false} FindAppended(rows: seq<Row>, name: string, row: Row)
    requires FindRow(rows, name) == |rows| && row.name == name
    ensures FindRow(rows + [row], name) == |rows|
  {
    if rows != [] {
      FindAppended(rows[1..], name, row);
      assert (rows + [row])[1..] == rows[1..] + [row];
    }
  }

  lemma {:induction false} FindUpdated(rows: seq<Row>, name: string, row: Row)
    requires var i := FindRow(rows, name); i < |rows| && row.name == name
    ensures FindRow(rows[FindRow(rows, name) := row], name) == FindRow(rows, name)
  {
    var i := FindRow(rows, name);
    if i > 0 {
      FindUpdated(rows[1..], name, row);
      assert rows[i := row][1..] == rows[1..][i - 1 := row];
    }
  }

  /** Storing writes one row, at the place of its name. */
  lemma StoredIs(rows: seq<Row>, row: Row)
    ensures var rows', i := Stored(rows, row), FindRow(rows, row.name);
            && i < |rows'| && FindRow(rows', row.name) == i && rows'[i] == row
            && |rows'| >= |rows| && forall j :: 0 <= j < |rows| && j != i ==> rows'[j] == rows[j]
  {
    if FindRow(rows, row.name) == |rows| {
      FindAppended(rows, row.name, row);
    } else {
      FindUpdated(rows, row.name, row);
    }
  }

  lemma WrittenIsRole(row: Row, seed: Profile)
    ensures IsRole(Written(row, seed))
  {
    var tags := Written(row, seed).tags;
    assert tags[0] == "role" && "role" in tags;
    StripIs("role");
    assert Lower("role") == "role";
  }

  /** Overwriting again changes nothing at all, and no overwrite touches what is the operator's or any other row. */
  lemma OverwriteTwice(rows: seq<Row>, seed: Profile, id: string, id': string)
    ensures var once := Install(rows, seed, true, id).1;
            var i := FindRow(rows, seed.name);
            && Install(once, seed, true, id').1 == once
            && (forall j :: 0 <= j < |rows| && j != i ==> once[j] == rows[j])
            && (i < |rows| ==>
                  && once[i].id == rows[i].id && once[i].name == rows[i].name && once[i].model == rows[i].model
                  && once[i].hosting == rows[i].hosting && once[i].securityPrompt == rows[i].securityPrompt)
  {
    var once := Install(rows, seed, true, id).1;
    var row := Written(BaseRow(rows, seed, id), seed);
    hide InstalledTags, ProfileOf, FindRow, IsRole;
    StoredIs(rows, row);
    WrittenTwice(BaseRow(rows, seed, id), seed);
    var i := FindRow(rows, seed.name);
    assert BaseRow(once, seed, id') == row;
    assert once[i := row] == once;
  }

  lemma WrittenTwice(row: Row, seed: Profile)
    ensures Written(Written(row, seed), seed) == Written(row, seed)
  {
  }

  /** A seed file's tool list can ride in tags when spelled as a string; as a list, unless a name has a comma. */
  lemma LoadedSeedsCarry(parts: seq<string>, text: string)
    ensures ToolsCarry(TextAsTuple(text))
    ensures ListAsTuple(parts).Some? ==> (ToolsCarry(ListAsTuple(parts)) <==> CommaFree(ListAsTuple(parts).value))
  {
    AsTupleIsToolList(parts, text);
  }
}
