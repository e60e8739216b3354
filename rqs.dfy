/** The rqs command (rqs.py:55-181): one invocation `rqs COMMAND ARGS...`
    either runs a built-in verb against the store or looks the command up as a
    wildcard pattern over the stored aliases.

    What the process prints, runs or exits with is returned as an `Outcome`;
    the executable probe is the parameter `isValidCommand`, and the answer
    typed at the `delete_all` prompt is the parameter `answer`. Each operation
    is a method over a `Store` and is proved against a function of the store's
    map (`Dispatch` and the functions it calls), about which RqsProperties
    proves what the tool promises. */
module Rqs {
  import opened Basics
  import opened Entries
  import opened Glob
  import opened Listing
  import opened KeyValue

  /** The handlers the `subcommands` table points to. */
  datatype Handler = AddHandler | ListAllHandler | DeleteHandler | DeleteAllHandler

  /** The `subcommands` table (rqs.py:181). */
  const Subcommands: map<string, Handler> :=
    map["add" := AddHandler, "ls" := ListAllHandler, "list" := ListAllHandler,
        "del" := DeleteHandler, "delete" := DeleteHandler, "delete_all" := DeleteAllHandler]

  /** What one invocation does, as seen from outside. */
  datatype Outcome =
    | InvalidArgument            // "invalid argument", then exit(1)
    | MissingArgument            // a handler invoked without its required argument: TypeError
    | Raised(error: EntryError)  // an exception out of the entry model
    | Added(kind: EntryType)     // "rqs added a ... entry."
    | Listed(entries: seq<Entry>) // print_entries, in printing order
    | NoEntry(name: string)      // "rqs has no entry for ..."
    | Deleted(key: string)       // "rqs deleted ..."
    | DeletedAll                 // "rqs deleted all entries."
    | Declined                   // delete_all answered with anything but y or nothing
    | Ran(argv: seq<string>)     // a command entry handed to the process spawner
    | Printed(content: string)   // a text entry's content on standard output

  /** The exit status of the process: 1 where the source exits or lets an
      exception escape, 0 otherwise. */
  function ExitCode(o: Outcome): int
  {
    if o.InvalidArgument? || o.MissingArgument? || o.Raised? then 1 else 0
  }

  type Db = map<string, Entry>

  /** Every entry is stored under its own alias, as `add` stores it. */
  predicate Consistent(m: Db)
  {
    forall k :: k in m ==> m[k].alias == k
  }

  /** The answers to "Are you sure? y/n" that go ahead (rqs.py:173). */
  predicate Confirms(answer: string)
  {
    answer == "y" || answer == ""
  }

  /** The entries stored under `keys`, in the order of `keys`. */
  function EntriesOf(m: Db, keys: seq<string>): seq<Entry>
    requires forall k :: k in keys ==> k in m
  {
    seq(|keys|, i requires 0 <= i < |keys| => m[keys[i]])
  }

  /** `add(alias, entry_content)` (rqs.py:130-134). */
  function AddResult(m: Db, alias: string, tokens: seq<string>, isValidCommand: string -> bool): (Outcome, Db)
  {
    match NewEntry(alias, Tokens(tokens), isValidCommand)
    case Ok(e) => (Added(e.kind), m[alias := e])
    case Err(err) => (Raised(err), m)
  }

  /** `print_entries(keys)` (rqs.py:141-148). */
  function ListingOf(m: Db, keys: seq<string>): Outcome
    requires forall k :: k in keys ==> k in m
  {
    Listed(SortDescending(EntriesOf(m, keys)))
  }

  /** `delete(key)` (rqs.py:160-168). */
  function DeleteResult(m: Db, key: string): (Outcome, Db)
  {
    if key !in m then (NoEntry(key), m) else (Deleted(key), m - {key})
  }

  /** `delete_all()` (rqs.py:171-178). */
  function DeleteAllResult(m: Db, answer: string): (Outcome, Db)
  {
    if !Confirms(answer) then (Declined, m) else (DeletedAll, map[])
  }

  /** `ctx.invoke(subcommands[command])` with no arguments (rqs.py:112). */
  function InvokeResult(h: Handler, m: Db, order: seq<string>, answer: string): (Outcome, Db)
    requires Enumerates(order, m)
  {
    match h
    case AddHandler => (MissingArgument, m)
    case DeleteHandler => (MissingArgument, m)
    case ListAllHandler => (ListingOf(m, order), m)
    case DeleteAllHandler => DeleteAllResult(m, answer)
  }

  /** The lookup branch of `rqs` (rqs.py:113-127). */
  function LookupResult(m: Db, order: seq<string>, pattern: string): Outcome
    requires Enumerates(order, m)
  {
    var matches := Filter(order, pattern);
    if |matches| > 1 then ListingOf(m, matches)
    else if |matches| == 0 then NoEntry(pattern)
    else
      var e := m[matches[0]];
      if e.kind == Command then
        match Execute(e)
        case Ok(argv) => Ran(argv)
        case Err(err) => Raised(err)
      else Printed(e.content)
  }

  /** One invocation `rqs command args...` (rqs.py:95-127) against the store
      `m`, whose keys the store lists in the order `order`: the outcome and
      the store afterwards. */
  function Dispatch(m: Db, order: seq<string>, command: string, args: seq<string>,
                    isValidCommand: string -> bool, answer: string): (Outcome, Db)
    requires Enumerates(order, m)
  {
    if command in Subcommands then
      if command == "add" then
        if |args| == 0 || |args| == 1 then (InvalidArgument, m)
        else AddResult(m, args[0], args[1..], isValidCommand)
      else if command == "delete" then
        if |args| != 1 then (InvalidArgument, m)
        else DeleteResult(m, args[0])
      else InvokeResult(Subcommands[command], m, order, answer)
    else (LookupResult(m, order, command), m)
  }

  /** `add` (rqs.py:130-134): builds the entry, then stores it under its alias. */
  method Add(store: Store<Entry>, alias: string, entryContent: seq<string>, isValidCommand: string -> bool)
    returns (o: Outcome)
    modifies store
    ensures (o, store.entries) == AddResult(old(store.entries), alias, entryContent, isValidCommand)
  {
    var r := NewEntry(alias, Tokens(entryContent), isValidCommand);
    match r
    case Err(err) =>
      o := Raised(err);
    case Ok(entry) =>
      store.Put(alias, entry);
      o := Added(entry.kind);
  }

  /** `print_entries` (rqs.py:141-148): reads the entry of every key, then
      sorts them for printing. */
  method PrintEntries(store: Store<Entry>, keys: seq<string>) returns (o: Outcome)
    requires forall k :: k in keys ==> k in store.entries
    ensures o == ListingOf(store.entries, keys)
    ensures o.Listed? && |o.entries| == |keys|
  {
    var entries: seq<Entry> := [];
    for i := 0 to |keys|
      invariant |entries| == i
      invariant forall j :: 0 <= j < i ==> entries[j] == store.entries[keys[j]]
    {
      var found := store.Get(keys[i]);
      match found
      case Some(entry) =>
        entries := entries + [entry];
      case None =>
        assert false;
    }
    assert entries == EntriesOf(store.entries, keys);
    SortDescendingSorts(entries);
    assert |SortDescending(entries)| == |multiset(entries)|;
    o := Listed(SortDescending(entries));
  }

  /** `list_all` (rqs.py:137-138): lists every key, in the store's order. */
  method ListAll(store: Store<Entry>) returns (o: Outcome, ghost order: seq<string>)
    ensures Enumerates(order, store.entries)
    ensures o == ListingOf(store.entries, order)
    ensures o.Listed? && |o.entries| == |store.entries|
  {
    var keys := store.Keys();
    o := PrintEntries(store, keys);
    order := keys;
    DistinctCardinality(keys);
    assert (set k | k in keys) == store.entries.Keys;
  }

  /** `delete` (rqs.py:160-168): a missing key is reported, not raised. */
  method Delete(store: Store<Entry>, key: string) returns (o: Outcome)
    modifies store
    ensures (o, store.entries) == DeleteResult(old(store.entries), key)
  {
    var found := store.Get(key);
    if found.None? {
      o := NoEntry(key);
      return;
    }
    store.Delete(key);
    o := Deleted(key);
  }

  /** `delete_all` (rqs.py:171-178): asks, then deletes key after key. */
  method DeleteAll(store: Store<Entry>, answer: string) returns (o: Outcome)
    modifies store
    ensures (o, store.entries) == DeleteAllResult(old(store.entries), answer)
  {
    if !Confirms(answer) {
      o := Declined;
      return;
    }
    var keys := store.Keys();
    for i := 0 to |keys|
      invariant forall k :: k in store.entries <==> k in old(store.entries) && k !in keys[..i]
      invariant forall k :: k in store.entries ==> store.entries[k] == old(store.entries)[k]
    {
      store.Delete(keys[i]);
      assert keys[..i + 1] == keys[..i] + [keys[i]];
    }
    assert keys[..|keys|] == keys;
    assert store.entries.Keys == {};
    o := DeletedAll;
  }

  /** The body of `rqs` (rqs.py:95-127). The verb check comes first, so an
      alias spelled like a verb is never looked up by its own name (a wildcard
      still reaches it); only the literal `delete` gets its argument checked
      and passed. */
  method Run(store: Store<Entry>, command: string, args: seq<string>,
             isValidCommand: string -> bool, answer: string)
    returns (o: Outcome, ghost order: seq<string>)
    modifies store
    ensures Enumerates(order, old(store.entries))
    ensures (o, store.entries) == Dispatch(old(store.entries), order, command, args, isValidCommand, answer)
  {
    order := EnumerationExists(store.entries);
    if command in Subcommands {
      if command == "add" {
        if |args| == 0 || |args| == 1 {
          o := InvalidArgument;
          return;
        }
        o := Add(store, args[0], args[1..], isValidCommand);
        return;
      }
      if command == "delete" {
        if |args| != 1 {
          o := InvalidArgument;
          return;
        }
        o := Delete(store, args[0]);
        return;
      }
      match Subcommands[command]
      case AddHandler =>
        o := MissingArgument;
      case DeleteHandler =>
        o := MissingArgument;
      case ListAllHandler =>
        o, order := ListAll(store);
      case DeleteAllHandler =>
        o := DeleteAll(store, answer);
    } else {
      var keys := store.Keys();
      order := keys;
      var matches := Filter(keys, command);
      if |matches| > 1 {
        o := PrintEntries(store, matches);
        return;
      }
      if |matches| == 0 {
        o := NoEntry(command);
        return;
      }
      var found := store.Get(matches[0]);
      match found
      case None =>
        assert false;
      case Some(entry) =>
        if entry.kind == Command {
          match Execute(entry)
          case Ok(argv) =>
            o := Ran(argv);
          case Err(err) =>
            o := Raised(err);
        } else {
          o := Printed(entry.content);
        }
    }
  }
}
