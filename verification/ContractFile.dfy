/** The key-value file of benchmark parameters, read line by line. */
module ContractFile {
  import opened Options

  /** Characters `str.strip()` removes. */
  predicate IsSpace(c: char) {
    var n := c as int;
    9 <= n <= 13 || 28 <= n <= 32 || n == 0x85 || n == 0xA0 || n == 0x1680 || 0x2000 <= n <= 0x200A
    || n == 0x2028 || n == 0x2029 || n == 0x202F || n == 0x205F || n == 0x3000
  }

  function StripLeft(s: string): string { if s != [] && IsSpace(s[0]) then StripLeft(s[1..]) else s }

  function StripRight(s: string): string {
    if s != [] && IsSpace(s[|s| - 1]) then StripRight(s[..|s| - 1]) else s
  }

  function Strip(s: string): string { StripRight(StripLeft(s)) }

  /** `[A-Z][A-Z0-9_]*` */
  predicate IsKey(s: string) {
    s != [] && 'A' <= s[0] <= 'Z' &&
    forall i :: 0 <= i < |s| ==> 'A' <= s[i] <= 'Z' || '0' <= s[i] <= '9' || s[i] == '_'
  }

  /** Index of the first `=`, or the length. */
  function Separator(s: string): (n: nat)
    ensures n <= |s| && '=' !in s[..n] && (n < |s| ==> s[n] == '=')
  {
    if s == [] || s[0] == '=' then 0
    else
      var n := Separator(s[1..]);
      assert s[..n + 1] == [s[0]] + s[1..][..n];
      n + 1
  }

  datatype Line = Skip | Invalid | Assign(key: string, value: string)

  function ParseLine(raw: string): Line {
    var line := Strip(raw);
    if line == [] || line[0] == '#' then Skip
    else
      var n := Separator(line);
      if n == |line| || !IsKey(line[..n]) then Invalid else Assign(line[..n], line[n + 1..])
  }

  // ----- Lines, as the text has them -----

  /** Blanks around `line`, which neither starts nor ends with one. */
  ghost predicate IsStripped(raw: string, front: string, line: string, back: string) {
    && raw == front + line + back
    && (forall i :: 0 <= i < |front| ==> IsSpace(front[i])) && (forall i :: 0 <= i < |back| ==> IsSpace(back[i]))
    && line != [] && !IsSpace(line[0]) && !IsSpace(line[|line| - 1])
  }

  lemma {:induction false} StripLeftOf(front: string, rest: string)
    requires (forall i :: 0 <= i < |front| ==> IsSpace(front[i])) && (rest == [] || !IsSpace(rest[0]))
    ensures StripLeft(front + rest) == rest
    decreases |front|
  {
    if front == [] {
      assert front + rest == rest;
    } else {
      assert (front + rest)[1..] == front[1..] + rest;
      StripLeftOf(front[1..], rest);
    }
  }

  lemma {:induction false} StripRightOf(rest: string, back: string)
    requires (forall i :: 0 <= i < |back| ==> IsSpace(back[i])) && (rest == [] || !IsSpace(rest[|rest| - 1]))
    ensures StripRight(rest + back) == rest
    decreases |back|
  {
    if back == [] {
      assert rest + back == rest;
    } else {
      var s := rest + back;
      assert s[..|s| - 1] == rest + back[..|back| - 1];
      StripRightOf(rest, back[..|back| - 1]);
    }
  }

  lemma StripExactly(raw: string, front: string, line: string, back: string)
    requires IsStripped(raw, front, line, back)
    ensures Strip(raw) == line
  {
    assert raw == front + (line + back);
    assert (line + back)[0] == line[0];
    StripLeftOf(front, line + back);
    StripRightOf(line, back);
  }

  /** `KEY=value`: a capital letter, then capitals, digits and underscores, up to the first `=`. */
  ghost predicate IsAssignment(line: string, key: string, value: string) {
    && line == key + "=" + value && key != [] && 'A' <= key[0] <= 'Z'
    && forall i :: 0 <= i < |key| ==> 'A' <= key[i] <= 'Z' || '0' <= key[i] <= '9' || key[i] == '_'
  }

  /** A line with text is a comment, an assignment or invalid, by its stripped text. */
  lemma LineExactly(raw: string, front: string, line: string, back: string)
    requires IsStripped(raw, front, line, back)
    ensures ParseLine(raw).Skip? <==> line[0] == '#'
    ensures forall key, value :: ParseLine(raw) == Assign(key, value) <==> IsAssignment(line, key, value)
  {
    StripExactly(raw, front, line, back);
    forall key, value ensures ParseLine(raw) == Assign(key, value) <==> IsAssignment(line, key, value) {
      AssignmentExactly(raw, line, key, value);
    }
  }

  lemma AssignmentExactly(raw: string, line: string, key: string, value: string)
    requires Strip(raw) == line && line != []
    ensures ParseLine(raw) == Assign(key, value) <==> IsAssignment(line, key, value)
  {
    if IsAssignment(line, key, value) {
      assert line[0] == key[0];
      CutAtKey(line, key, value);
    }
    if ParseLine(raw) == Assign(key, value) {
      var n := Separator(line);
      assert line == line[..n] + "=" + line[n + 1..];
    }
  }

  lemma CutAtKey(line: string, key: string, value: string)
    requires IsAssignment(line, key, value)
    ensures var n := Separator(line); n < |line| && line[..n] == key && line[n + 1..] == value
  {
    var n := Separator(line);
    assert line[|key|] == '=';
    assert forall i :: 0 <= i < |key| ==> line[i] == key[i];
    assert forall i :: 0 <= i < n ==> line[i] == line[..n][i];
  }

  /** Blank lines, and comments behind spaces and tabs, are skipped. */
  lemma SkippedLines(front: string, rest: string)
    requires (forall i :: 0 <= i < |front| ==> front[i] == ' ' || front[i] == '\t') && (rest == [] || rest[0] == '#')
    ensures ParseLine(front + rest).Skip?
  {
    StripLeftOf(front, rest);
    if rest != [] { FirstStays(rest); }
  }

  lemma {:induction false} FirstStays(s: string)
    requires s != [] && !IsSpace(s[0])
    ensures StripRight(s) != [] && StripRight(s)[0] == s[0]
    decreases |s|
  {
    if IsSpace(s[|s| - 1]) { FirstStays(s[..|s| - 1]); }
  }

  predicate Assigns(line: string, key: string) { ParseLine(line).Assign? && ParseLine(line).key == key }

  /** The value a key ends up with: the last assignment wins. */
  function LastValue(lines: seq<string>, key: string): Option<string> {
    if lines == [] then None
    else if Assigns(lines[|lines| - 1], key) then Some(ParseLine(lines[|lines| - 1]).value)
    else LastValue(lines[..|lines| - 1], key)
  }

  predicate IsLast(lines: seq<string>, i: int, key: string) {
    0 <= i < |lines| && Assigns(lines[i], key) && forall j :: i < j < |lines| ==> !Assigns(lines[j], key)
  }

  lemma FrontAssigns(lines: seq<string>, key: string)
    requires lines != [] && !Assigns(lines[|lines| - 1], key)
    ensures var front := lines[..|lines| - 1];
      ((exists i :: 0 <= i < |lines| && Assigns(lines[i], key))
       <==> exists i :: 0 <= i < |front| && Assigns(front[i], key))
      && forall i :: IsLast(lines, i, key) ==> IsLast(front, i, key) && front[i] == lines[i]
  {
    var front := lines[..|lines| - 1];
    if i :| 0 <= i < |lines| && Assigns(lines[i], key) { assert front[i] == lines[i]; }
    if i :| 0 <= i < |front| && Assigns(front[i], key) { assert front[i] == lines[i]; }
    forall i | IsLast(lines, i, key) ensures IsLast(front, i, key) && front[i] == lines[i] {
      assert forall j :: i < j < |front| ==> front[j] == lines[j];
    }
  }

  lemma {:induction false} LastValueIsLast(lines: seq<string>, key: string)
    ensures LastValue(lines, key).Some? <==> exists i :: 0 <= i < |lines| && Assigns(lines[i], key)
    ensures forall i :: IsLast(lines, i, key) ==> LastValue(lines, key) == Some(ParseLine(lines[i]).value)
    decreases |lines|
  {
    if lines != [] && !Assigns(lines[|lines| - 1], key) {
      LastValueIsLast(lines[..|lines| - 1], key);
      FrontAssigns(lines, key);
    }
  }

  /** `None` stands for the ValueError, which any invalid line raises. */
  method ReadContract(lines: seq<string>) returns (r: Option<map<string, string>>)
    ensures r.None? <==> exists i :: 0 <= i < |lines| && ParseLine(lines[i]).Invalid?
    ensures r.Some? ==> forall key :: key in r.value <==> LastValue(lines, key).Some?
    ensures r.Some? ==> forall key :: key in r.value ==> LastValue(lines, key) == Some(r.value[key])
  {
    var values: map<string, string> := map[];
    for n := 0 to |lines|
      invariant forall i :: 0 <= i < n ==> !ParseLine(lines[i]).Invalid?
      invariant forall key :: key in values <==> LastValue(lines[..n], key).Some?
      invariant forall key :: key in values ==> LastValue(lines[..n], key) == Some(values[key])
    {
      var line := ParseLine(lines[n]);
      if line.Invalid? {
        return None;
      }
      assert lines[..n + 1][..n] == lines[..n] && lines[..n + 1][n] == lines[n];
      if line.Assign? {
        values := values[line.key := line.value];
      }
    }
    assert lines[..|lines|] == lines;
    r := Some(values);
  }

  /** A written line is read back: any key of the pattern, any value that stripping leaves alone. */
  lemma LineRoundTrip(key: string, value: string)
    requires IsKey(key) && (value != [] ==> !IsSpace(value[|value| - 1]))
    ensures ParseLine(key + "=" + value) == Assign(key, value)
  {
    var line := key + "=" + value;
    assert line[0] == key[0] && !IsSpace(line[0]) && line[0] != '#';
    assert line[|line| - 1] == if value == [] then '=' else value[|value| - 1];
    assert Strip(line) == line;
    var n := Separator(line);
    assert line[|key|] == '=';
    assert forall i :: 0 <= i < |key| ==> line[i] == key[i];
    assert forall i :: 0 <= i < n ==> line[i] == line[..n][i];
    assert n == |key|;
    assert line[..n] == key && line[n + 1..] == value;
  }
}
