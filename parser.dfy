/**
 The configuration parser: a block of text made of `key=value` lines becomes
 a map from keys to values. Lines that are blank or hold no `=` are skipped;
 the first `=` of a line separates its key from its value, both stripped of
 surrounding whitespace; a key given twice keeps the value of its last line.
 */
module Parser {
  import opened Text

  datatype Option<T> = None | Some(value: T)

  /** One accepted line: the key before its first `=`, the value after it. */
  datatype Setting = Setting(key: string, value: string)

  type Config = map<string, string>

  /** What every parsed map satisfies: keys hold no `=`, and keys and values are stripped. */
  predicate WellFormed(config: Config)
  {
    forall k :: k in config ==> '=' !in k && IsStripped(k) && IsStripped(config[k])
  }

  /** The setting one line contributes, if any. */
  function ParseLine(raw: string): (r: Option<Setting>)
    ensures r.None? <==> (Strip(raw) == [] || '=' !in Strip(raw))
    ensures r.Some? ==> '=' !in r.value.key && IsStripped(r.value.key) && IsStripped(r.value.value)
  {
    var line := Strip(raw);
    if line != [] && '=' in line then
      var eq := Find(line, '=');
      StripKeepsOnlyInputChars(line[..eq], '=');
      Some(Setting(Strip(line[..eq]), Strip(line[eq + 1..])))
    else
      None
  }

  /**
   An accepted line is cut at its first `=` only: the key is the stripped
   text before it, which holds no `=`, and the value is the stripped rest,
   which may hold further `=` characters.
   */
  lemma ParseLineSplitsAtFirst(raw: string) returns (before: string, after: string)
    requires ParseLine(raw).Some?
    ensures Strip(raw) == before + "=" + after
    ensures '=' !in before
    ensures ParseLine(raw).value == Setting(Strip(before), Strip(after))
  {
    var line := Strip(raw);
    var eq := Find(line, '=');
    before, after := line[..eq], line[eq + 1..];
    assert line == before + [line[eq]] + after;
  }

  /** `key` is the key of the setting on `line`. */
  predicate Defines(line: string, key: string)
  {
    ParseLine(line).Some? && ParseLine(line).value.key == key
  }

  /** The map after one more line: its setting, if any, overwrites the key's entry. */
  function Apply(config: Config, setting: Option<Setting>): (r: Config)
    ensures setting.None? ==> r == config
    ensures setting.Some? ==> r.Keys == config.Keys + {setting.value.key} && r[setting.value.key] == setting.value.value
    ensures setting.Some? ==> forall k :: k in config && k != setting.value.key ==> r[k] == config[k]
  {
    match setting
    case None => config
    case Some(s) => config[s.key := s.value]
  }

  /** The map built from a sequence of lines, one line at a time. */
  function ParseLines(lines: seq<string>): (config: Config)
    ensures WellFormed(config)
  {
    if lines == [] then map[]
    else Apply(ParseLines(lines[..|lines| - 1]), ParseLine(lines[|lines| - 1]))
  }

  lemma ParseLinesSnoc(init: seq<string>, line: string)
    ensures ParseLines(init + [line]) == Apply(ParseLines(init), ParseLine(line))
  {
    assert (init + [line])[..|init|] == init;
  }

  /** The map parsed from a whole text block: strip it, split it at `\n`, parse the lines. */
  function Parse(text: string): (config: Config)
    ensures WellFormed(config)
  {
    ParseLines(Split(Strip(text), '\n'))
  }

  /** The parser loop, updating a map one line at a time. */
  method ParseConfig(text: string) returns (config: Config)
    ensures config == Parse(text)
  {
    var lines := Split(Strip(text), '\n');
    config := map[];
    for i := 0 to |lines|
      invariant config == ParseLines(lines[..i])
    {
      assert lines[..i + 1] == lines[..i] + [lines[i]];
      ParseLinesSnoc(lines[..i], lines[i]);
      match ParseLine(lines[i])
      case Some(setting) =>
        assert Apply(config, Some(setting)) == config[setting.key := setting.value];
        config := config[setting.key := setting.value];
      case None =>
    }
    assert lines[..|lines|] == lines;
  }

  /** A key is in the map exactly when some line defines it. */
  lemma {:induction false} DefinedKeys(lines: seq<string>, key: string)
    ensures key in ParseLines(lines) <==> exists i :: 0 <= i < |lines| && Defines(lines[i], key)
  {
    if lines != [] {
      var n := |lines| - 1;
      var init, last := lines[..n], lines[n];
      assert lines == init + [last];
      ParseLinesSnoc(init, last);
      DefinedKeys(init, key);
      assert forall i :: 0 <= i < n ==> init[i] == lines[i];
    }
  }

  /** Last write wins: a key's value is the one on the last line that defines it. */
  lemma {:induction false} LastWriteWins(lines: seq<string>, key: string, i: nat)
    requires i < |lines| && Defines(lines[i], key)
    requires forall j :: i < j < |lines| ==> !Defines(lines[j], key)
    ensures key in ParseLines(lines) && ParseLines(lines)[key] == ParseLine(lines[i]).value.value
  {
    var n := |lines| - 1;
    var init, last := lines[..n], lines[n];
    assert lines == init + [last];
    ParseLinesSnoc(init, last);
    if i < n {
      assert forall j :: i < j < n ==> init[j] == lines[j];
      LastWriteWins(init, key, i);
    }
  }

  /** A line that is blank or has no `=` can be removed without changing the map. */
  lemma {:induction false} SkippedLineIsInert(before: seq<string>, line: string, after: seq<string>)
    requires Strip(line) == [] || '=' !in Strip(line)
    ensures ParseLines(before + [line] + after) == ParseLines(before + after)
  {
    if after == [] {
      assert before + [line] + after == before + [line];
      assert before + after == before;
      ParseLinesSnoc(before, line);
    } else {
      var n := |after| - 1;
      var init, last := after[..n], after[n];
      SkippedLineIsInert(before, line, init);
      assert before + [line] + after == (before + [line] + init) + [last];
      assert before + after == (before + init) + [last];
      ParseLinesSnoc(before + [line] + init, last);
      ParseLinesSnoc(before + init, last);
    }
  }

  /** A text that is empty or all whitespace parses to the empty map. */
  lemma BlankTextParsesEmpty(text: string)
    requires AllSpace(text)
    ensures Parse(text) == map[]
  {
    StripUnique(text, [], []);
    assert text + [] + [] == text;
    assert Split([], '\n') == [[]];
    assert ParseLines([[]]) == ParseLines([]);
  }
}
