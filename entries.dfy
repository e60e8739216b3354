/** The entry model of rqs (rqs.py:19-52): one stored alias, the text it stands
    for, and whether that text is a command to run or a secret to print.

    The executable probe that `Entry.__init__` consults (`is_valid_command`,
    which spawns `which`) is a parameter `isValidCommand: string -> bool`. */
module Entries {
  import opened Basics

  /** `EntryType`: the enum's values are the strings "command" and "text". */
  datatype EntryType = Command | Text {
    function Value(): string {
      match this
      case Command => "command"
      case Text => "text"
    }
  }

  /** A stored entry. `kind` is the source's `type` attribute; the emoji it
      also keeps is presentation only. */
  datatype Entry = Entry(alias: string, content: string, kind: EntryType)

  /** What `Entry.__init__` receives as `args_content`: a list or tuple of
      tokens, or any other Python value. */
  datatype Argument = Tokens(items: seq<string>) | NotASequence

  /** The Python exceptions the entry model can raise. */
  datatype EntryError = ValueError | IndexError

  datatype Result<T> = Ok(value: T) | Err(error: EntryError)

  /** Python's `' '.join(tokens)`. */
  function Join(tokens: seq<string>): string
  {
    if |tokens| == 0 then ""
    else if |tokens| == 1 then tokens[0]
    else tokens[0] + " " + Join(tokens[1..])
  }

  /** Python's `s.split(' ')`: every single space separates two fields, and
      empty fields are kept, so there is always at least one field. */
  function Split(s: string): (fields: seq<string>)
    ensures |fields| >= 1
  {
    if s == [] then [""]
    else
      var rest := Split(s[1..]);
      if s[0] == ' ' then [""] + rest
      else [[s[0]] + rest[0]] + rest[1..]
  }

  predicate SpaceFree(t: string)
  {
    ' ' !in t
  }

  predicate AllSpaceFree(tokens: seq<string>)
  {
    forall i :: 0 <= i < |tokens| ==> SpaceFree(tokens[i])
  }

  /** Splitting `a b` at its first space, when `a` holds no space. */
  lemma {:induction false} SplitAfterWord(a: string, b: string)
    requires SpaceFree(a)
    ensures Split(a + " " + b) == [a] + Split(b)
  {
    if a == [] {
      assert a + " " + b == [' '] + b;
      assert (a + " " + b)[1..] == b;
    } else {
      assert (a + " " + b)[0] == a[0];
      assert (a + " " + b)[1..] == a[1..] + " " + b;
      SplitAfterWord(a[1..], b);
      assert [a[0]] + a[1..] == a;
    }
  }

  /** A word without spaces splits into itself. */
  lemma {:induction false} SplitWord(a: string)
    requires SpaceFree(a)
    ensures Split(a) == [a]
  {
    if a != [] {
      SplitWord(a[1..]);
      assert [a[0]] + a[1..] == a;
    }
  }

  /** Joining with single spaces loses nothing when no token holds a space:
      splitting the content gives the tokens back. */
  lemma {:induction false} SplitJoin(tokens: seq<string>)
    requires |tokens| >= 1 && AllSpaceFree(tokens)
    ensures Split(Join(tokens)) == tokens
  {
    if |tokens| == 1 {
      SplitWord(tokens[0]);
    } else {
      assert SpaceFree(tokens[0]);
      SplitAfterWord(tokens[0], Join(tokens[1..]));
      SplitJoin(tokens[1..]);
      assert [tokens[0]] + tokens[1..] == tokens;
    }
  }

  /** Splitting on single spaces and joining again gives back every string. */
  lemma {:induction false} JoinSplit(s: string)
    ensures Join(Split(s)) == s
  {
    if s != [] {
      var rest := Split(s[1..]);
      JoinSplit(s[1..]);
      if s[0] == ' ' {
        assert Split(s) == [""] + rest;
        assert ([""] + rest)[1..] == rest;
        assert s == " " + s[1..];
      } else {
        var first := [s[0]] + rest[0];
        assert Split(s) == [first] + rest[1..];
        if |rest| == 1 {
          assert s == [s[0]] + s[1..];
        } else {
          assert ([first] + rest[1..])[1..] == rest[1..];
          assert Join(rest) == rest[0] + " " + Join(rest[1..]);
          assert s == [s[0]] + s[1..];
        }
      }
    }
  }

  /** `Entry.__init__` (rqs.py:25-36). Anything but a list or tuple raises
      ValueError; the content is joined before the first token is read, so an
      empty token sequence raises IndexError there; otherwise the probe on the
      first token decides the kind once and for all. */
  function NewEntry(alias: string, args: Argument, isValidCommand: string -> bool): (r: Result<Entry>)
    ensures r == Err(ValueError) <==> args == NotASequence
    ensures r == Err(IndexError) <==> args == Tokens([])
    ensures r.Ok? ==> args.Tokens? && |args.items| >= 1 && r.value.alias == alias
    ensures r.Ok? ==> r.value.content == Join(args.items)
    ensures r.Ok? ==> (r.value.kind == Command <==> isValidCommand(args.items[0]))
  {
    match args
    case NotASequence => Err(ValueError)
    case Tokens(items) =>
      if |items| == 0 then Err(IndexError)
      else Ok(Entry(alias, Join(items), if isValidCommand(items[0]) then Command else Text))
  }

  /** The content of a new entry keeps its tokens: when none holds a space,
      splitting the content on single spaces gives them back. */
  lemma NewEntryKeepsTokens(alias: string, tokens: seq<string>, isValidCommand: string -> bool)
    requires |tokens| >= 1 && AllSpaceFree(tokens)
    ensures NewEntry(alias, Tokens(tokens), isValidCommand).Ok?
    ensures Split(NewEntry(alias, Tokens(tokens), isValidCommand).value.content) == tokens
  {
    SplitJoin(tokens);
  }

  /** `Entry.execute` (rqs.py:38-42), corrected: a text entry raises
      ValueError; a command entry hands the process spawner its content split
      back into words, which, joined again, are its content. */
  function Execute(e: Entry): (x: Result<seq<string>>)
    ensures x.Err? <==> e.kind == Text
    ensures x.Err? ==> x.error == ValueError
    ensures x.Ok? ==> |x.value| >= 1 && Join(x.value) == e.content
  {
    if e.kind == Text then Err(ValueError)
    else
      JoinSplit(e.content);
      Ok(Split(e.content))
  }

  /** The argument vector rqs.py:42 hands the spawner as written:
      `subprocess.call` given one string and no shell takes the whole string
      as the name of the program on POSIX, and raises FileNotFoundError when
      no program has that name. */
  function SpawnedAsWritten(e: Entry): seq<string>
  {
    [e.content]
  }

  /** As written, an entry of two or more tokens whose first token passed the
      probe asks the spawner for a program named by the whole content, which
      is not the program the probe found. */
  lemma AsWrittenSpawnsUnprobedProgram(alias: string, tokens: seq<string>, isValidCommand: string -> bool)
    requires |tokens| >= 2 && isValidCommand(tokens[0])
    ensures NewEntry(alias, Tokens(tokens), isValidCommand).Ok?
    ensures var e := NewEntry(alias, Tokens(tokens), isValidCommand).value;
            e.kind == Command && SpawnedAsWritten(e)[0] != tokens[0]
  {
    var e := NewEntry(alias, Tokens(tokens), isValidCommand).value;
    assert |e.content| > |tokens[0]|;
  }

  /** Corrected: a command entry runs exactly the tokens it was added with,
      so the program spawned is the one the probe accepted. */
  lemma {:induction false} CommandRunsItsTokens(alias: string, tokens: seq<string>, isValidCommand: string -> bool)
    requires |tokens| >= 1 && AllSpaceFree(tokens) && isValidCommand(tokens[0])
    ensures NewEntry(alias, Tokens(tokens), isValidCommand) == Ok(Entry(alias, Join(tokens), Command))
    ensures Execute(Entry(alias, Join(tokens), Command)) == Ok(tokens)
  {
    SplitJoin(tokens);
  }

  /** The connector `Entry.__str__` puts between alias and content. */
  function Connector(kind: EntryType): string
  {
    if kind == Command then "->" else "="
  }

  /** `Entry.__str__` without colours (rqs.py:44-52). */
  function Render(e: Entry): string
  {
    e.alias + " " + Connector(e.kind) + " " + e.content
  }

  /** Index of the first space in `s`, or `|s|` when there is none. */
  function FirstSpace(s: string): (i: nat)
    ensures i <= |s|
    ensures forall j :: 0 <= j < i ==> s[j] != ' '
    ensures i < |s| ==> s[i] == ' '
  {
    if s == [] || s[0] == ' ' then 0 else 1 + FirstSpace(s[1..])
  }

  /** Reads a rendered line back into its entry: the alias up to the first
      space, then `-> ` for a command or `= ` for a text, then the content. */
  function ParseRendered(line: string): Option<Entry>
  {
    var i := FirstSpace(line);
    if i == |line| then None
    else
      var rest := line[i + 1..];
      if |rest| >= 3 && rest[..3] == "-> " then Some(Entry(line[..i], rest[3..], Command))
      else if |rest| >= 2 && rest[..2] == "= " then Some(Entry(line[..i], rest[2..], Text))
      else None
  }

  /** Rendering loses nothing when the alias holds no space: the line names
      the alias, tells a command from a text by its connector, and ends with
      the content. */
  lemma RenderRoundTrip(e: Entry)
    requires SpaceFree(e.alias)
    ensures ParseRendered(Render(e)) == Some(e)
  {
    var line := Render(e);
    var n := |e.alias|;
    assert line[n] == ' ';
    assert forall j :: 0 <= j < n ==> line[j] == e.alias[j];
    var i := FirstSpace(line);
    assert i == n;
    assert line[..n] == e.alias;
    var rest := line[n + 1..];
    assert rest == Connector(e.kind) + " " + e.content;
    if e.kind == Command {
      assert rest[..3] == "-> ";
      assert rest[3..] == e.content;
    } else {
      assert rest[0] == '=';
      assert rest[..2] == "= ";
      assert rest[2..] == e.content;
    }
  }
}
