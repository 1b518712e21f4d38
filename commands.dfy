/**
 * The command reader of test.c: `parse_command` turns one line into at most
 * one `Command` appended to the global `commands` array, and the read loop
 * passes it only the lines longer than one byte.
 */
module CommandParser {
  import opened Wrappers
  import opened HashTableTypes

  /** `#define MAX_COMMANDS 128`: the capacity of `commands`. */
  const MAX_COMMANDS: nat := 128

  datatype CommandType = CmdInsert | CmdDelete | CmdSearch | CmdPrint

  /** `Command`: a type, a name of at most 49 bytes and a salary. */
  datatype Command = Command(kind: CommandType, name: seq<bv8>, salary: u32)

  const COMMA: bv8 := 0x2C
  const NEWLINE: bv8 := 0x0A

  /** "insert" */
  const INSERT_WORD: seq<bv8> := [0x69, 0x6E, 0x73, 0x65, 0x72, 0x74]
  /** "delete" */
  const DELETE_WORD: seq<bv8> := [0x64, 0x65, 0x6C, 0x65, 0x74, 0x65]
  /** "search" */
  const SEARCH_WORD: seq<bv8> := [0x73, 0x65, 0x61, 0x72, 0x63, 0x68]
  /** "print" */
  const PRINT_WORD: seq<bv8> := [0x70, 0x72, 0x69, 0x6E, 0x74]

  /** `strncmp(line, word, |word|) == 0` on a NUL-free line. */
  predicate StartsWith(line: seq<bv8>, word: seq<bv8>)
  {
    |word| <= |line| && line[..|word|] == word
  }

  /** The `%[^...]` conversion: the longest prefix of `s` with no byte of `stops`. */
  function ScanUntil(s: seq<bv8>, stops: set<bv8>): (r: seq<bv8>)
    ensures r <= s
    ensures forall i :: 0 <= i < |r| ==> r[i] !in stops
    ensures |r| < |s| ==> s[|r|] in stops
  {
    if s == [] || s[0] in stops then [] else [s[0]] + ScanUntil(s[1..], stops)
  }

  predicate IsDigit(b: bv8)
  {
    0x30 <= b <= 0x39
  }

  /** The ASCII digits "0" to "9". */
  const DIGITS: seq<bv8> := [0x30, 0x31, 0x32, 0x33, 0x34, 0x35, 0x36, 0x37, 0x38, 0x39]

  /** The value of one decimal digit. */
  function DigitValue(b: bv8): nat
    requires IsDigit(b)
  {
    b as int - 0x30
  }

  /** The digits `%u` reads: the longest prefix of decimal digits. */
  function ScanDigits(s: seq<bv8>): (r: seq<bv8>)
    ensures r <= s
    ensures forall i :: 0 <= i < |r| ==> IsDigit(r[i])
    ensures |r| < |s| ==> !IsDigit(s[|r|])
  {
    if s == [] || !IsDigit(s[0]) then [] else [s[0]] + ScanDigits(s[1..])
  }

  /** The value of a string of decimal digits, most significant first. */
  function DecimalValue(ds: seq<bv8>): nat
    requires forall i :: 0 <= i < |ds| ==> IsDigit(ds[i])
  {
    if ds == [] then 0
    else DecimalValue(ds[..|ds| - 1]) * 10 + DigitValue(ds[|ds| - 1])
  }

  /** The name field after "insert,": up to the next comma. */
  function InsertName(line: seq<bv8>): seq<bv8>
    requires |line| >= 7
  {
    ScanUntil(line[7..], {COMMA})
  }

  /** The digits of the salary field, after the comma that ends the name. */
  function InsertDigits(line: seq<bv8>): seq<bv8>
    requires |line| >= 7 && 8 + |InsertName(line)| <= |line|
  {
    ScanDigits(line[8 + |InsertName(line)|..])
  }

  /**
   * `insert,<name>,<salary>` as `sscanf(line, "insert,%[^,],%u", ...)` reads it
   * in full: a non-empty name that fits `Command.name`, a comma after it, and
   * a salary of plain decimal digits whose value fits in 32 bits.
   */
  predicate WellFormedInsert(line: seq<bv8>)
  {
    |line| > 7 && line[6] == COMMA &&
    1 <= |InsertName(line)| <= MAX_NAME_LEN && 7 + |InsertName(line)| < |line| &&
    |InsertDigits(line)| > 0 && DecimalValue(InsertDigits(line)) < 0x1_0000_0000
  }

  /** The name field of "delete,<name>" and "search,<name>": up to a comma or newline. */
  function ArgName(line: seq<bv8>): seq<bv8>
    requires |line| >= 7
  {
    ScanUntil(line[7..], {COMMA, NEWLINE})
  }

  /** `sscanf(line, "delete,%[^,\n]", name)` (or "search,...") reads a name that fits. */
  predicate WellFormedArg(line: seq<bv8>)
  {
    |line| > 7 && line[6] == COMMA && 1 <= |ArgName(line)| <= MAX_NAME_LEN
  }

  /**
   * The lines on which `parse_command` is defined: a C string whose fields,
   * when its prefix selects a command with fields, are all there and fit.
   */
  predicate WellFormed(line: seq<bv8>)
  {
    NoNul(line) &&
    (StartsWith(line, INSERT_WORD) ==> WellFormedInsert(line)) &&
    (StartsWith(line, DELETE_WORD) ==> WellFormedArg(line)) &&
    (StartsWith(line, SEARCH_WORD) ==> WellFormedArg(line))
  }

  /** The command one line yields, if any, tested in the order of `parse_command`. */
  function Parse(line: seq<bv8>): (c: Option<Command>)
    requires WellFormed(line)
    ensures c.None? <==>
      !StartsWith(line, INSERT_WORD) && !StartsWith(line, DELETE_WORD) &&
      !StartsWith(line, SEARCH_WORD) && !StartsWith(line, PRINT_WORD)
    ensures c.Some? && c.value.kind != CmdInsert ==> c.value.salary == 0
    ensures c.Some? && c.value.kind != CmdPrint ==>
      ValidName(c.value.name) && |c.value.name| > 0
    ensures c.Some? && c.value.kind == CmdPrint ==> c.value.name == []
  {
    if StartsWith(line, INSERT_WORD) then
      Some(Command(CmdInsert, InsertName(line), DecimalValue(InsertDigits(line)) as u32))
    else if StartsWith(line, DELETE_WORD) then
      Some(Command(CmdDelete, ArgName(line), 0))
    else if StartsWith(line, SEARCH_WORD) then
      Some(Command(CmdSearch, ArgName(line), 0))
    else if StartsWith(line, PRINT_WORD) then
      Some(Command(CmdPrint, [], 0))
    else
      None
  }

  /** The commands one line contributes; a line outside the domain of `Parse` contributes none. */
  function LineCommands(line: seq<bv8>): seq<Command>
  {
    if WellFormed(line) && Parse(line).Some? then [Parse(line).value] else []
  }

  /** The commands a sequence of lines yields, in order. */
  function ParseAll(lines: seq<seq<bv8>>): seq<Command>
  {
    if lines == [] then [] else ParseAll(lines[..|lines| - 1]) + LineCommands(lines[|lines| - 1])
  }

  /** The read loop's filter: only lines with `strlen(line) > 1` reach `parse_command`. */
  function NonBlank(lines: seq<seq<bv8>>): seq<seq<bv8>>
  {
    if lines == [] then []
    else
      var last := lines[|lines| - 1];
      NonBlank(lines[..|lines| - 1]) + (if |last| > 1 then [last] else [])
  }

  // ---------------------------------------------------------------------------
  // The inverse: writing commands as lines

  /** The decimal digits of `n`, most significant first, without leading zeros. */
  function Decimal(n: nat): (ds: seq<bv8>)
    ensures |ds| > 0 && forall i :: 0 <= i < |ds| ==> IsDigit(ds[i])
  {
    if n < 10 then [DIGITS[n]] else Decimal(n / 10) + [DIGITS[n % 10]]
  }

  /** Each digit byte stands for its own value. */
  lemma DigitsValue(d: nat)
    requires d < 10
    ensures IsDigit(DIGITS[d]) && DigitValue(DIGITS[d]) == d
  {
  }

  /** Reading back the digits of `n` yields `n`. */
  lemma {:induction false} DecimalRoundTrip(n: nat)
    ensures DecimalValue(Decimal(n)) == n
  {
    var ds := Decimal(n);
    DigitsValue(n % 10);
    if n >= 10 {
      DecimalRoundTrip(n / 10);
      assert ds[..|ds| - 1] == Decimal(n / 10);
    }
  }

  /** Scanning stops exactly at the end of a field free of stop bytes. */
  lemma {:induction false} ScanUntilField(field: seq<bv8>, tail: seq<bv8>, stops: set<bv8>)
    requires forall i :: 0 <= i < |field| ==> field[i] !in stops
    requires tail == [] || tail[0] in stops
    ensures ScanUntil(field + tail, stops) == field
  {
    if field != [] {
      assert (field + tail)[1..] == field[1..] + tail;
      ScanUntilField(field[1..], tail, stops);
    }
  }

  /** `%u` reads exactly the digits, when the byte after them is not a digit. */
  lemma {:induction false} ScanDigitsField(ds: seq<bv8>, tail: seq<bv8>)
    requires forall i :: 0 <= i < |ds| ==> IsDigit(ds[i])
    requires tail == [] || !IsDigit(tail[0])
    ensures ScanDigits(ds + tail) == ds
  {
    if ds != [] {
      assert (ds + tail)[1..] == ds[1..] + tail;
      ScanDigitsField(ds[1..], tail);
    }
  }

  /** Joining two C strings' bytes gives a C string's bytes. */
  lemma NoNulJoin(a: seq<bv8>, b: seq<bv8>)
    requires NoNul(a) && NoNul(b)
    ensures NoNul(a + b)
  {
    forall i | 0 <= i < |a + b| ensures (a + b)[i] != NUL {
      if i >= |a| { assert (a + b)[i] == b[i - |a|]; }
    }
  }

  /** Decimal digits are never NUL. */
  lemma DigitsNoNul(ds: seq<bv8>)
    requires forall i :: 0 <= i < |ds| ==> IsDigit(ds[i])
    ensures NoNul(ds)
  {
    forall i | 0 <= i < |ds| ensures ds[i] != NUL { assert IsDigit(ds[i]); }
  }

  /** The line `insert,<name>,<salary>`. */
  function InsertLine(name: seq<bv8>, salary: u32): seq<bv8>
  {
    INSERT_WORD + [COMMA] + name + [COMMA] + Decimal(salary as nat)
  }

  /** The line `delete,<name>` or `search,<name>`. */
  function ArgLine(word: seq<bv8>, name: seq<bv8>): seq<bv8>
  {
    word + [COMMA] + name
  }

  /** A name that the `%[^...]` conversion reads back whole. */
  predicate FieldName(name: seq<bv8>)
  {
    1 <= |name| <= MAX_NAME_LEN && NoNul(name) &&
    forall i :: 0 <= i < |name| ==> name[i] != COMMA && name[i] != NEWLINE
  }

  /** How an insert line splits: the header "insert,", the name, and the rest. */
  lemma InsertLineSplit(name: seq<bv8>, salary: u32, tail: seq<bv8>)
    ensures var line := InsertLine(name, salary) + tail;
      line == (INSERT_WORD + [COMMA]) + (name + ([COMMA] + (Decimal(salary as nat) + tail))) &&
      |line| > 8 + |name| && line[6] == COMMA && line[..6] == INSERT_WORD &&
      line[7..] == name + ([COMMA] + (Decimal(salary as nat) + tail))
  {
    var head := INSERT_WORD + [COMMA];
    var line := head + (name + ([COMMA] + (Decimal(salary as nat) + tail)));
    assert InsertLine(name, salary) + tail == line;
    assert line[..7] == head;
    assert line[..6] == head[..6];
  }

  /** The fields `sscanf` finds in an insert line are the ones it was written with. */
  lemma InsertLineFields(name: seq<bv8>, salary: u32, tail: seq<bv8>)
    requires FieldName(name)
    requires tail == [] || !IsDigit(tail[0])
    ensures var line := InsertLine(name, salary) + tail;
      |line| > 8 + |name| && line[6] == COMMA && StartsWith(line, INSERT_WORD) &&
      InsertName(line) == name && InsertDigits(line) == Decimal(salary as nat)
  {
    var ds := Decimal(salary as nat);
    var rest := [COMMA] + (ds + tail);
    var line := InsertLine(name, salary) + tail;
    InsertLineSplit(name, salary, tail);
    ScanUntilField(name, rest, {COMMA});
    assert line[8 + |name|..] == (name + rest)[|name| + 1..] == ds + tail;
    ScanDigitsField(ds, tail);
  }

  /** An insert line written from C strings is a C string. */
  lemma InsertLineNoNul(name: seq<bv8>, salary: u32, tail: seq<bv8>)
    requires NoNul(name) && NoNul(tail)
    ensures NoNul(InsertLine(name, salary) + tail)
  {
    var ds := Decimal(salary as nat);
    DigitsNoNul(ds);
    NoNulJoin(INSERT_WORD + [COMMA], name);
    NoNulJoin(INSERT_WORD + [COMMA] + name, [COMMA]);
    NoNulJoin(INSERT_WORD + [COMMA] + name + [COMMA], ds);
    NoNulJoin(InsertLine(name, salary), tail);
  }

  /**
   * Parsing an insert line, followed by anything that does not continue the
   * digits (a newline, say), yields the command it was written from.
   */
  lemma InsertRoundTrip(name: seq<bv8>, salary: u32, tail: seq<bv8>)
    requires FieldName(name) && NoNul(tail)
    requires tail == [] || !IsDigit(tail[0])
    ensures WellFormed(InsertLine(name, salary) + tail)
    ensures Parse(InsertLine(name, salary) + tail) == Some(Command(CmdInsert, name, salary))
  {
    var line := InsertLine(name, salary) + tail;
    InsertLineFields(name, salary, tail);
    InsertLineNoNul(name, salary, tail);
    DecimalRoundTrip(salary as nat);
    assert line[0] == INSERT_WORD[0];
  }

  /**
   * Parsing a delete or search line, ended by nothing, a newline or a comma,
   * yields the command it was written from, with salary 0.
   */
  lemma ArgRoundTrip(kind: CommandType, name: seq<bv8>, tail: seq<bv8>)
    requires kind == CmdDelete || kind == CmdSearch
    requires FieldName(name) && NoNul(tail)
    requires tail == [] || tail[0] == NEWLINE || tail[0] == COMMA
    ensures var word := if kind == CmdDelete then DELETE_WORD else SEARCH_WORD;
      WellFormed(ArgLine(word, name) + tail) &&
      Parse(ArgLine(word, name) + tail) == Some(Command(kind, name, 0))
  {
    var word := if kind == CmdDelete then DELETE_WORD else SEARCH_WORD;
    var line := ArgLine(word, name) + tail;
    assert line == word + [COMMA] + (name + tail);
    assert line[..6] == word;
    assert line[7..] == name + tail;
    ScanUntilField(name, tail, {COMMA, NEWLINE});
    NoNulJoin(name, tail);
    NoNulJoin(word + [COMMA], name + tail);
  }

  /** Any C string that starts with "print" yields a print command with no name. */
  lemma PrintLine(line: seq<bv8>)
    requires NoNul(line) && StartsWith(line, PRINT_WORD)
    ensures WellFormed(line) && Parse(line) == Some(Command(CmdPrint, [], 0))
  {
    assert line[0] == PRINT_WORD[0];
  }

  /** The filter keeps exactly the lines of more than one byte. */
  lemma {:induction false} NonBlankKeeps(lines: seq<seq<bv8>>)
    ensures forall k :: 0 <= k < |NonBlank(lines)| ==>
      |NonBlank(lines)[k]| > 1 && NonBlank(lines)[k] in lines
    ensures forall l :: l in lines && |l| > 1 ==> l in NonBlank(lines)
  {
    if lines != [] {
      var front := lines[..|lines| - 1];
      NonBlankKeeps(front);
      assert lines == front + [lines[|lines| - 1]];
    }
  }

  /** The filter never yields more lines than it was given. */
  lemma {:induction false} NonBlankLength(lines: seq<seq<bv8>>)
    ensures |NonBlank(lines)| <= |lines|
  {
    if lines != [] {
      NonBlankLength(lines[..|lines| - 1]);
    }
  }

  /** Parsing one more line appends its commands. */
  lemma ParseAllAppend(lines: seq<seq<bv8>>, l: seq<bv8>)
    ensures ParseAll(lines + [l]) == ParseAll(lines) + LineCommands(l)
  {
    assert (lines + [l])[..|lines|] == lines;
  }

  /** What one turn of the read loop contributes: the line's commands if the filter keeps it. */
  function Kept(line: seq<bv8>): seq<Command>
  {
    if |line| > 1 then LineCommands(line) else []
  }

  /** The commands the read loop collects from `lines`, line by line. */
  function ReadAll(lines: seq<seq<bv8>>): seq<Command>
  {
    if lines == [] then [] else ReadAll(lines[..|lines| - 1]) + Kept(lines[|lines| - 1])
  }

  /** Collecting line by line is parsing the lines the filter keeps. */
  lemma {:induction false} ReadAllIsParseOfNonBlank(lines: seq<seq<bv8>>)
    ensures ReadAll(lines) == ParseAll(NonBlank(lines))
  {
    if lines != [] {
      var front := lines[..|lines| - 1];
      var last := lines[|lines| - 1];
      ReadAllIsParseOfNonBlank(front);
      if |last| > 1 {
        ParseAllAppend(NonBlank(front), last);
      } else {
        assert NonBlank(lines) == NonBlank(front);
      }
    }
  }

  /** The read loop collects no more commands from a prefix of the lines than from all of them. */
  lemma {:induction false} ReadAllPrefix(lines: seq<seq<bv8>>, i: nat)
    requires i <= |lines|
    ensures |ReadAll(lines[..i])| <= |ReadAll(lines)|
  {
    if i < |lines| {
      var front := lines[..|lines| - 1];
      ReadAllPrefix(front, i);
      assert front[..i] == lines[..i];
    } else {
      assert lines[..i] == lines;
    }
  }

  /** Reading one more line appends what that line contributes. */
  lemma ReadAllStep(lines: seq<seq<bv8>>, i: nat)
    requires i < |lines|
    ensures ReadAll(lines[..i + 1]) == ReadAll(lines[..i]) + Kept(lines[i])
  {
    assert lines[..i + 1][..i] == lines[..i];
  }

  // ---------------------------------------------------------------------------
  // The global `commands` array and `command_count`

  class CommandList {
    /** `Command commands[MAX_COMMANDS]` */
    const commands: array<Command>
    /** `int command_count` */
    var count: int

    ghost predicate Valid()
      reads this
    {
      commands.Length == MAX_COMMANDS && 0 <= count <= MAX_COMMANDS
    }

    /** The commands parsed so far, in order. */
    function Contents(): seq<Command>
      reads this, commands
      requires Valid()
    {
      commands[..count]
    }

    /** The globals at program start: `command_count = 0`. */
    constructor ()
      ensures Valid() && fresh(commands) && Contents() == []
    {
      commands := new Command[MAX_COMMANDS];
      count := 0;
    }

    /**
     * `parse_command`: appends the command the line selects, if any; earlier
     * entries are never touched. There is no bound check in the source, so
     * appending requires room.
     */
    method ParseCommand(line: seq<bv8>)
      requires Valid() && WellFormed(line)
      requires Parse(line).Some? ==> count < MAX_COMMANDS
      modifies this, commands
      ensures Valid()
      ensures Contents() == old(Contents()) + (if Parse(line).Some? then [Parse(line).value] else [])
      ensures count <= old(count) + 1
    {
      if StartsWith(line, INSERT_WORD) {
        var name := InsertName(line);
        var salary := DecimalValue(InsertDigits(line)) as u32;
        commands[count] := Command(CmdInsert, name, salary);
        count := count + 1;
      } else if StartsWith(line, DELETE_WORD) {
        commands[count] := Command(CmdDelete, ArgName(line), 0);
        count := count + 1;
      } else if StartsWith(line, SEARCH_WORD) {
        commands[count] := Command(CmdSearch, ArgName(line), 0);
        count := count + 1;
      } else if StartsWith(line, PRINT_WORD) {
        commands[count] := Command(CmdPrint, [], 0);
        count := count + 1;
      }
    }

    /** One turn of the read loop: `if (strlen(line) > 1) parse_command(line);`. */
    method ReadLine(line: seq<bv8>)
      requires Valid()
      requires |line| > 1 ==> WellFormed(line)
      requires count + |Kept(line)| <= MAX_COMMANDS
      modifies this, commands
      ensures Valid()
      ensures Contents() == old(Contents()) + Kept(line)
    {
      if |line| > 1 {
        ParseCommand(line);
      }
    }

    /**
     * The read loop of `main`, over the lines after the header: it collects
     * the commands of exactly the lines the blank-line filter keeps.
     */
    method ReadCommands(lines: seq<seq<bv8>>)
      requires Valid()
      requires forall k :: 0 <= k < |lines| && |lines[k]| > 1 ==> WellFormed(lines[k])
      requires count + |ReadAll(lines)| <= MAX_COMMANDS
      modifies this, commands
      ensures Valid()
      ensures Contents() == old(Contents()) + ReadAll(lines)
      ensures Contents() == old(Contents()) + ParseAll(NonBlank(lines))
    {
      var i := 0;
      while i < |lines|
        invariant 0 <= i <= |lines|
        invariant Valid()
        invariant Contents() == old(Contents()) + ReadAll(lines[..i])
      {
        ReadAllStep(lines, i);
        ReadAllPrefix(lines, i + 1);
        ReadLine(lines[i]);
        i := i + 1;
      }
      assert lines[..i] == lines;
      ReadAllIsParseOfNonBlank(lines);
    }
  }
}
