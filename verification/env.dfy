/**
 * The `.env` loader of app/Infrastructure/Env.php: a one-shot parse of
 * `KEY=VALUE` lines into the process environment, where variables that are
 * already set always win, and the `get` accessor with its default.
 */
module Env {
  import opened Wrappers
  import opened Text

  /** What `is_file` and `file($path, FILE_IGNORE_NEW_LINES | FILE_SKIP_EMPTY_LINES)` report for the path. */
  datatype EnvFile = NotAFile | Unreadable | Lines(lines: seq<string>)

  /** The `$loaded` flag of the class and the process environment (`getenv`/`putenv`). */
  datatype EnvState = EnvState(loaded: bool, vars: map<string, string>)

  /** One assignment read from a line. */
  datatype Entry = Entry(key: string, value: string)

  /** A value wrapped in one pair of matching double or single quotes (a lone quote counts: it starts and ends the value). */
  predicate Quoted(value: string) {
    (StartsWith(value, "\"") && EndsWith(value, "\"")) || (StartsWith(value, "'") && EndsWith(value, "'"))
  }

  /** `substr($value, 1, -1)` applied to quoted values only. */
  function StripQuotes(value: string): (r: string)
    ensures !Quoted(value) ==> r == value
    ensures Quoted(value) ==> |r| == if |value| >= 2 then |value| - 2 else 0
    ensures Quoted(value) && |value| >= 2 ==> value == [value[0]] + r + [value[0]]
  {
    if Quoted(value) then
      if |value| >= 2 then value[1..|value| - 1] else ""
    else
      value
  }

  /** Surrounding quotes of either kind are removed exactly once. */
  lemma StripQuotesInverse(q: char, s: string)
    requires q == '"' || q == '\''
    ensures StripQuotes([q] + s + [q]) == s
  {
    var v := [q] + s + [q];
    assert StartsWith(v, [q]) && EndsWith(v, [q]);
    assert v[1..|v| - 1] == s;
  }

  /**
   * The assignment a line makes, if any: the line is trimmed; blank lines,
   * `#` comments, lines without `=` and lines with an empty key are skipped;
   * otherwise the line is split at its FIRST `=`, both sides are trimmed and
   * one pair of quotes is removed from the value.
   */
  function ParseLine(line: string): (r: Option<Entry>)
    ensures Trim(line) == "" || Trim(line)[0] == '#' || '=' !in Trim(line) ==> r.None?
    ensures r.Some? ==> r.value.key != "" && '=' !in r.value.key
    ensures var t := Trim(line);
      r.Some? <==> t != "" && t[0] != '#' && SplitOnce(t, '=').Parts? && Trim(SplitOnce(t, '=').before) != ""
    ensures r.Some? ==> var p := SplitOnce(Trim(line), '=');
      r.value == Entry(Trim(p.before), StripQuotes(Trim(p.after)))
  {
    ParseTrimmed(Trim(line))
  }

  /**
   * A line whose trimmed text is `before=after`, with no `=` in `before`,
   * assigns the trimmed `before` the trimmed and unquoted `after`, unless that
   * key is empty or the line is a comment.
   */
  lemma ParseLineAt(line: string, before: string, after: string)
    requires Trim(line) == before + "=" + after && '=' !in before
    ensures before != "" && before[0] == '#' ==> ParseLine(line).None?
    ensures before == "" || before[0] != '#' ==>
      ParseLine(line) == if Trim(before) == "" then None else Some(Entry(Trim(before), StripQuotes(Trim(after))))
  {
    assert Trim(line) == before + ['='] + after;
    SplitOnceAt(before, '=', after);
    if before != "" {
      assert Trim(line)[0] == before[0];
    }
  }

  /** The part of `ParseLine` after the line is trimmed. */
  function ParseTrimmed(t: string): (r: Option<Entry>)
    ensures t == "" || t[0] == '#' || '=' !in t ==> r.None?
    ensures r.Some? ==> r.value.key != "" && '=' !in r.value.key
  {
    if t == "" || t[0] == '#' then
      None
    else
      match SplitOnce(t, '=')
      case NoSeparator => None
      case Parts(before, after) =>
        TrimWithin(before);
        ParsePair(before, after)
  }

  /** The key and value around the first `=`: both trimmed, an empty key skipped, the value unquoted. */
  function ParsePair(before: string, after: string): (r: Option<Entry>)
    ensures r.Some? ==> r.value.key != "" && r.value.key == Trim(before)
  {
    var key := Trim(before);
    if key == "" then None else Some(Entry(key, StripQuotes(Trim(after))))
  }

  /** `explode('=', $line, 2)` splits at the first `=`: every later `=` belongs to the value. */
  lemma ParseLineAssignment(key: string, value: string)
    requires key != "" && !IsBlank(key[0]) && !IsBlank(key[|key| - 1]) && '=' !in key && key[0] != '#'
    requires |value| == 0 || (!IsBlank(value[0]) && !IsBlank(value[|value| - 1]) && value[0] != '"' && value[0] != '\'')
    ensures ParseLine(key + "=" + value) == Some(Entry(key, value))
  {
    AssignmentTrimmed(key, value);
    AssignmentSplits(key, value);
    PairOfTrimmed(key, value);
  }

  lemma AssignmentSplits(key: string, value: string)
    requires key != "" && '=' !in key && key[0] != '#'
    ensures ParseTrimmed(key + "=" + value) == ParsePair(key, value)
  {
    var line := key + "=" + value;
    assert line == key + ['='] + value;
    SplitOnceAt(key, '=', value);
    assert line[0] == key[0];
  }

  lemma PairOfTrimmed(key: string, value: string)
    requires key != "" && !IsBlank(key[0]) && !IsBlank(key[|key| - 1])
    requires |value| == 0 || (!IsBlank(value[0]) && !IsBlank(value[|value| - 1]) && value[0] != '"' && value[0] != '\'')
    ensures ParsePair(key, value) == Some(Entry(key, value))
  {
    TrimUnchanged(key);
    TrimUnchanged(value);
    NotQuoted(value);
  }

  lemma NotQuoted(value: string)
    requires |value| == 0 || (value[0] != '"' && value[0] != '\'')
    ensures StripQuotes(value) == value
  {
    if |value| > 0 {
      assert value[..1] == [value[0]];
    }
  }

  lemma AssignmentTrimmed(key: string, value: string)
    requires key != "" && !IsBlank(key[0])
    requires |value| == 0 || !IsBlank(value[|value| - 1])
    requires |value| == 0 ==> !IsBlank(key[|key| - 1])
    ensures Trim(key + "=" + value) == key + "=" + value
  {
    var line := key + "=" + value;
    assert !IsBlank(line[|line| - 1]) by {
      if |value| > 0 {
        assert line[|line| - 1] == value[|value| - 1];
      }
    }
    assert line[0] == key[0];
    TrimUnchanged(line);
  }

  /** One line of the loop: the assignment is made only when the variable is not set yet. */
  function ApplyLine(vars: map<string, string>, line: string): (r: map<string, string>)
    ensures forall k :: k in vars ==> k in r && r[k] == vars[k]
    ensures forall k :: k in r && k !in vars ==> ParseLine(line) == Some(Entry(k, r[k]))
    ensures ParseLine(line).Some? ==> ParseLine(line).value.key in r
  {
    ApplyEntry(vars, ParseLine(line))
  }

  function ApplyEntry(vars: map<string, string>, e: Option<Entry>): (r: map<string, string>)
    ensures forall k :: k in vars ==> k in r && r[k] == vars[k]
    ensures forall k :: k in r && k !in vars ==> e == Some(Entry(k, r[k]))
    ensures e.Some? ==> e.value.key in r
  {
    match e
    case None => vars
    case Some(entry) => if entry.key in vars then vars else vars[entry.key := entry.value]
  }

  /** The `foreach` over the lines, in file order. */
  function LoadLines(vars: map<string, string>, lines: seq<string>): (r: map<string, string>)
    decreases |lines|
  {
    if |lines| == 0 then vars else LoadLines(ApplyLine(vars, lines[0]), lines[1..])
  }

  /** The value the first line assigning `key` gives it, if any line does. */
  function FirstValue(lines: seq<string>, key: string): Option<string> {
    if |lines| == 0 then None
    else if ParseLine(lines[0]).Some? && ParseLine(lines[0]).value.key == key then Some(ParseLine(lines[0]).value.value)
    else FirstValue(lines[1..], key)
  }

  /**
   * The whole effect of the loop: a variable that was set keeps its value,
   * any other variable takes the value of the FIRST line assigning it, and
   * nothing else is set.
   */
  lemma {:induction false} LoadLinesResult(vars: map<string, string>, lines: seq<string>, key: string)
    ensures key in LoadLines(vars, lines) <==> key in vars || FirstValue(lines, key).Some?
    ensures key in vars ==> LoadLines(vars, lines)[key] == vars[key]
    ensures key !in vars && FirstValue(lines, key).Some? ==> LoadLines(vars, lines)[key] == FirstValue(lines, key).value
    decreases |lines|
  {
    if |lines| > 0 {
      var next := ApplyLine(vars, lines[0]);
      LoadLinesResult(next, lines[1..], key);
    }
  }

  /** `Env::load($path)`. */
  function Load(s: EnvState, file: EnvFile): (r: EnvState)
    ensures r.loaded
    ensures s.loaded ==> r == s
    ensures forall k :: k in s.vars ==> k in r.vars && r.vars[k] == s.vars[k]
  {
    if s.loaded || file.NotAFile? then
      EnvState(true, s.vars)
    else
      match file
      case Unreadable => EnvState(true, s.vars)
      case Lines(lines) =>
        LoadKeepsVars(s.vars, lines);
        EnvState(true, LoadLines(s.vars, lines))
  }

  lemma LoadKeepsVars(vars: map<string, string>, lines: seq<string>)
    ensures forall k :: k in vars ==> k in LoadLines(vars, lines) && LoadLines(vars, lines)[k] == vars[k]
  {
    forall k | k in vars
      ensures k in LoadLines(vars, lines) && LoadLines(vars, lines)[k] == vars[k]
    {
      LoadLinesResult(vars, lines, k);
    }
  }

  /** Loading is one-shot: once it has run, a second call changes nothing, whatever file it is given. */
  lemma LoadOnce(s: EnvState, first: EnvFile, second: EnvFile)
    ensures Load(Load(s, first), second) == Load(s, first)
  {
  }

  /** `Env::get($key, $default)`: the default when the variable is unset or empty. */
  function Get(vars: map<string, string>, key: string, default: Option<string>): (r: Option<string>)
    ensures r == default <== key !in vars || vars[key] == ""
    ensures key in vars && vars[key] != "" ==> r == Some(vars[key])
  {
    if key !in vars || vars[key] == "" then default else Some(vars[key])
  }

  /** A variable set only by the file reads back as its first assignment (unless that assignment is empty). */
  lemma GetAfterLoad(s: EnvState, lines: seq<string>, key: string, default: Option<string>)
    requires !s.loaded && key !in s.vars && FirstValue(lines, key).Some?
    ensures var v := FirstValue(lines, key).value;
      Get(Load(s, Lines(lines)).vars, key, default) == if v == "" then default else Some(v)
  {
    LoadLinesResult(s.vars, lines, key);
  }
}
