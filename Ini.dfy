/** MibTeX's `Ini`: the options of an ini file as a map from option names to values,
    read from lines of the form `name=value`. */
module Ini {
  import opened JavaStrings

  /** The separator between an option's name and its value. */
  const ASSIGNMENT_OP := '='

  /** The section header, skipped wherever it occurs in a line. */
  const SECTION_HEADER := "[options]"

  /** A line that sets an option: no section header in it and exactly two pieces around
      `=`, that is, exactly one `=`. */
  predicate Accepted(line: string) {
    !Contains(line, SECTION_HEADER) && |Split(line, ASSIGNMENT_OP)| == 2
  }

  /** The options the lines set, each accepted line in turn overwriting its option. */
  function Parse(lines: seq<string>): map<string, string>
    decreases |lines|
  {
    if lines == [] then map[]
    else
      var options := Parse(lines[..|lines| - 1]);
      var line := lines[|lines| - 1];
      if Accepted(line) then options[NameOf(line) := ValueOf(line)]
      else options
  }

  /** A line is accepted exactly when it holds one `=`; it is then its name, the `=` and
      its value. */
  lemma {:induction false} AcceptedForm(line: string)
    requires !Contains(line, SECTION_HEADER)
    ensures Accepted(line) <==> Count(line, ASSIGNMENT_OP) == 1
    ensures Accepted(line) ==>
      var parts := Split(line, ASSIGNMENT_OP);
      line == parts[0] + [ASSIGNMENT_OP] + parts[1] && ASSIGNMENT_OP !in parts[0] + parts[1]
  {
    if Accepted(line) {
      SplitJoin(line, ASSIGNMENT_OP);
      var parts := Split(line, ASSIGNMENT_OP);
      assert parts[0] in parts && parts[1] in parts;
    }
  }

  /** Every `name=value` line free of the section header is accepted, setting `name`
      to `value`. */
  lemma {:induction false} AcceptedAssignment(name: string, value: string)
    requires ASSIGNMENT_OP !in name && ASSIGNMENT_OP !in value
    requires !Contains(name + [ASSIGNMENT_OP] + value, SECTION_HEADER)
    ensures Accepted(name + [ASSIGNMENT_OP] + value)
    ensures Split(name + [ASSIGNMENT_OP] + value, ASSIGNMENT_OP) == [name, value]
  {
    var parts := [name, value];
    JoinSplit(parts, ASSIGNMENT_OP);
    assert Join(parts, ASSIGNMENT_OP) == name + [ASSIGNMENT_OP] + value;
  }

  /** The option name a line sets, meaningful for accepted lines. */
  function NameOf(line: string): string {
    Split(line, ASSIGNMENT_OP)[0]
  }

  /** The value a line sets, meaningful for accepted lines. */
  function ValueOf(line: string): string
    requires Accepted(line)
  {
    Split(line, ASSIGNMENT_OP)[1]
  }

  /** The line is accepted and sets option `name`. */
  predicate Sets(line: string, name: string) {
    Accepted(line) && NameOf(line) == name
  }

  /** An option set by the lines is named on some accepted line. */
  lemma {:induction false} ParseKeysNamed(lines: seq<string>, name: string)
    requires name in Parse(lines)
    ensures exists i :: 0 <= i < |lines| && Sets(lines[i], name)
    decreases |lines|
  {
    var init := lines[..|lines| - 1];
    if !Sets(lines[|lines| - 1], name) {
      ParseKeysNamed(init, name);
      var i :| 0 <= i < |init| && Sets(init[i], name);
      assert lines[i] == init[i];
    }
  }

  /** An option named on some accepted line is set by the lines. */
  lemma {:induction false} NamedParseKeys(lines: seq<string>, i: nat, name: string)
    requires i < |lines| && Sets(lines[i], name)
    ensures name in Parse(lines)
    decreases |lines|
  {
    var init := lines[..|lines| - 1];
    if i < |init| {
      assert init[i] == lines[i];
      NamedParseKeys(init, i, name);
    }
  }

  /** The value of an option is the one on the last accepted line naming it. */
  lemma {:induction false} ParseLastWins(lines: seq<string>, i: nat, name: string)
    requires i < |lines| && Sets(lines[i], name)
    requires forall j :: i < j < |lines| ==> !Sets(lines[j], name)
    ensures name in Parse(lines) && Parse(lines)[name] == ValueOf(lines[i])
    decreases |lines|
  {
    var init := lines[..|lines| - 1];
    if i < |lines| - 1 {
      assert init[i] == lines[i];
      forall j | i < j < |init| ensures !Sets(init[j], name) {
        assert init[j] == lines[j];
      }
      ParseLastWins(init, i, name);
    }
  }

  /** `Boolean.parseBoolean`: true exactly for "true" in any case; a missing value,
      Java's null, is false. */
  predicate ParseBool(val: Option<string>) {
    val.Some? && EqualsIgnoreCase(val.value, "true")
  }

  /** parseBool accepts exactly the spellings of "true" that lower-case to "true". */
  lemma {:induction false} ParseBoolLower(s: string)
    ensures ParseBool(Some(s)) <==> ToLower(s) == "true"
  {
    if ParseBool(Some(s)) {
      assert ToLower(s) == "true" by {
        forall i | 0 <= i < 4 ensures ToLower(s)[i] == "true"[i] {
          assert UpperChar(s[i]) == UpperChar("true"[i]);
        }
      }
    }
    if ToLower(s) == "true" {
      forall i | 0 <= i < |s| ensures UpperChar(s[i]) == UpperChar("true"[i]) {
        assert LowerChar(s[i]) == "true"[i];
      }
    }
  }

  /** The option store of one ini file. */
  class Ini {
    var options: map<string, string>

    constructor ()
      ensures options == map[]
    {
      options := map[];
    }

    /** Sets `option` to `value`, replacing any earlier value. */
    method Put(option: string, value: string)
      modifies this
      ensures options == old(options)[option := value]
    {
      options := options[option := value];
    }

    /** The value of `option`, None where Java returns null. */
    function Get(option: string): (r: Option<string>)
      reads this
      ensures r.Some? <==> option in options
      ensures r.Some? ==> r.value == options[option]
    {
      if option in options then Some(options[option]) else None
    }

    /** fromLineStream: every line without the section header and with exactly one `=`
        sets its option; other lines are reported and skipped. */
    static method FromLineStream(lines: seq<string>) returns (ini: Ini)
      ensures fresh(ini)
      ensures ini.options == Parse(lines)
    {
      ini := new Ini();
      var i := 0;
      while i < |lines|
        invariant 0 <= i <= |lines|
        invariant ini.options == Parse(lines[..i])
      {
        var line := lines[i];
        assert lines[..i + 1][..i] == lines[..i];
        if !Contains(line, SECTION_HEADER) {
          var parts := Split(line, ASSIGNMENT_OP);
          if |parts| == 2 {
            ini.Put(parts[0], parts[1]);
          }
        }
        i := i + 1;
      }
      assert lines[..|lines|] == lines;
    }
  }
}
