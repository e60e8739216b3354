/** What rqs promises about one invocation and about invocations in a row,
    proved of `Rqs.Dispatch` for every probe and every answer at the prompt.
    The lemmas about lookups and key order hold for every store that keeps
    each entry under its own alias, which `DispatchKeepsConsistent` shows
    every invocation preserves. */
module RqsProperties {
  import opened Basics
  import opened Entries
  import opened Glob
  import opened Listing
  import opened Rqs

  /** A command in the verb table is always handled as a verb: nothing is run
      or printed, whatever aliases the store holds. */
  lemma VerbsAreNeverLookedUp(m: Db, order: seq<string>, command: string, args: seq<string>,
                              isValidCommand: string -> bool, answer: string)
    requires Enumerates(order, m) && command in Subcommands
    ensures var (o, _) := Dispatch(m, order, command, args, isValidCommand, answer);
            !o.Ran? && !o.Printed? && (o.NoEntry? ==> command == "delete")
  {
  }

  /** A pattern that is not a verb only reads the store, and with the
      corrected spawn it exits 0. */
  lemma LookupLeavesStoreUnchanged(m: Db, order: seq<string>, command: string, args: seq<string>,
                                   isValidCommand: string -> bool, answer: string)
    requires Enumerates(order, m) && command !in Subcommands
    ensures Dispatch(m, order, command, args, isValidCommand, answer).1 == m
    ensures ExitCode(Dispatch(m, order, command, args, isValidCommand, answer).0) == 0
  {
    var o := LookupResult(m, order, command);
    var matches := Filter(order, command);
    if |matches| == 1 && m[matches[0]].kind == Command {
      assert Execute(m[matches[0]]).Ok?;
    }
  }

  /** `add` with fewer than two arguments is a usage error that exits 1 and
      stores nothing. */
  lemma AddNeedsAliasAndContent(m: Db, order: seq<string>, args: seq<string>,
                                isValidCommand: string -> bool, answer: string)
    requires Enumerates(order, m) && |args| < 2
    ensures Dispatch(m, order, "add", args, isValidCommand, answer) == (InvalidArgument, m)
    ensures ExitCode(InvalidArgument) == 1
  {
  }

  /** `delete` with other than one argument is a usage error that exits 1 and
      deletes nothing. */
  lemma DeleteNeedsOneKey(m: Db, order: seq<string>, args: seq<string>,
                          isValidCommand: string -> bool, answer: string)
    requires Enumerates(order, m) && |args| != 1
    ensures Dispatch(m, order, "delete", args, isValidCommand, answer) == (InvalidArgument, m)
  {
  }

  /** `del`, although in the verb table, is invoked without its key, whatever
      arguments follow it: it fails and deletes nothing. */
  lemma DelIsInvokedWithoutKey(m: Db, order: seq<string>, args: seq<string>,
                               isValidCommand: string -> bool, answer: string)
    requires Enumerates(order, m)
    ensures Dispatch(m, order, "del", args, isValidCommand, answer) == (MissingArgument, m)
    ensures ExitCode(MissingArgument) == 1
  {
  }

  /** `add alias t1 .. tn` stores under `alias` the entry built from the tokens,
      replacing any earlier one and leaving every other key as it was, and
      reports the entry's kind. */
  lemma AddStoresEntry(m: Db, order: seq<string>, args: seq<string>,
                       isValidCommand: string -> bool, answer: string)
    requires Enumerates(order, m) && |args| >= 2
    ensures var kind := if isValidCommand(args[1]) then Command else Text;
            Dispatch(m, order, "add", args, isValidCommand, answer) ==
              (Added(kind), m[args[0] := Entry(args[0], Join(args[1..]), kind)])
    ensures var m' := Dispatch(m, order, "add", args, isValidCommand, answer).1;
            m'.Keys == m.Keys + {args[0]} &&
            forall k :: k in m && k != args[0] ==> m'[k] == m[k]
  {
    var r := NewEntry(args[0], Tokens(args[1..]), isValidCommand);
    assert r.Ok?;
  }

  /** Repeating an `add` changes nothing more: the store after two identical
      adds is the store after one. */
  lemma AddIsIdempotent(m: Db, order: seq<string>, args: seq<string>, order': seq<string>,
                        isValidCommand: string -> bool, answer: string)
    requires Enumerates(order, m)
    requires Enumerates(order', Dispatch(m, order, "add", args, isValidCommand, answer).1)
    ensures var m1 := Dispatch(m, order, "add", args, isValidCommand, answer).1;
            Dispatch(m1, order', "add", args, isValidCommand, answer).1 == m1
  {
    if |args| >= 2 {
      AddStoresEntry(m, order, args, isValidCommand, answer);
      var m1 := Dispatch(m, order, "add", args, isValidCommand, answer).1;
      AddStoresEntry(m1, order', args, isValidCommand, answer);
    }
  }

  /** `delete key` on a missing key reports it and changes nothing; on a
      present key it removes that key and only that key. */
  lemma DeleteRemovesOnlyItsKey(m: Db, order: seq<string>, key: string,
                                isValidCommand: string -> bool, answer: string)
    requires Enumerates(order, m)
    ensures key !in m ==> Dispatch(m, order, "delete", [key], isValidCommand, answer) == (NoEntry(key), m)
    ensures key in m ==>
              var (o, m') := Dispatch(m, order, "delete", [key], isValidCommand, answer);
              o == Deleted(key) && m'.Keys == m.Keys - {key} &&
              forall k :: k in m' ==> m'[k] == m[k]
  {
  }

  /** `delete_all` empties the store when the answer is `y` or nothing, and
      otherwise leaves it as it was. */
  lemma DeleteAllNeedsConfirmation(m: Db, order: seq<string>, args: seq<string>,
                                   isValidCommand: string -> bool, answer: string)
    requires Enumerates(order, m)
    ensures var (o, m') := Dispatch(m, order, "delete_all", args, isValidCommand, answer);
            if answer == "y" || answer == "" then o == DeletedAll && m'.Keys == {}
            else o == Declined && m' == m
  {
  }

  /** The dispatcher never lets an exception out of the entry model: `add`
      always has a token to classify, and only command entries are executed. */
  lemma EntryErrorsAreUnreachable(m: Db, order: seq<string>, command: string, args: seq<string>,
                                  isValidCommand: string -> bool, answer: string)
    requires Enumerates(order, m)
    ensures !Dispatch(m, order, command, args, isValidCommand, answer).0.Raised?
  {
    if command == "add" && |args| >= 2 {
      assert NewEntry(args[0], Tokens(args[1..]), isValidCommand).Ok?;
    }
    if command !in Subcommands {
      var matches := Filter(order, command);
      if |matches| == 1 && m[matches[0]].kind == Command {
        assert Execute(m[matches[0]]).Ok?;
      }
    }
  }

  /** Every entry stays stored under its own alias. */
  lemma DispatchKeepsConsistent(m: Db, order: seq<string>, command: string, args: seq<string>,
                                isValidCommand: string -> bool, answer: string)
    requires Enumerates(order, m) && Consistent(m)
    ensures Consistent(Dispatch(m, order, command, args, isValidCommand, answer).1)
  {
    if command == "add" && |args| >= 2 {
      AddStoresEntry(m, order, args, isValidCommand, answer);
    }
  }

  /** The lookup of a pattern: no match is reported, several matches are
      listed (exactly the matching entries, in listing order) and nothing runs,
      and one match runs a command entry or prints a text entry. */
  lemma LookupOutcomes(m: Db, order: seq<string>, pattern: string)
    requires Enumerates(order, m) && Consistent(m)
    ensures var matches := Filter(order, pattern);
            var o := LookupResult(m, order, pattern);
            && (forall k :: k in matches <==> k in m && FnMatch(k, pattern))
            && (|matches| == 0 ==> o == NoEntry(pattern))
            && (|matches| > 1 ==>
                  o.Listed? && |o.entries| == |matches| && Descending(o.entries) &&
                  forall e :: e in o.entries <==> e.alias in m && m[e.alias] == e && FnMatch(e.alias, pattern))
            && (|matches| == 1 ==>
                  var e := m[matches[0]];
                  (e.kind == Command ==> o.Ran? && Join(o.argv) == e.content) &&
                  (e.kind == Text ==> o == Printed(e.content)))
  {
    var matches := Filter(order, pattern);
    if |matches| > 1 {
      var es := EntriesOf(m, matches);
      SortDescendingSorts(es);
      var sorted := SortDescending(es);
      assert |sorted| == |multiset(es)|;
      forall e ensures e in sorted <==> e.alias in m && m[e.alias] == e && FnMatch(e.alias, pattern) {
        assert e in sorted <==> e in multiset(es);
        if e in es {
          var i :| 0 <= i < |es| && es[i] == e;
          assert matches[i] in matches;
        }
        if e.alias in m && m[e.alias] == e && FnMatch(e.alias, pattern) {
          assert e.alias in matches;
          var i :| 0 <= i < |matches| && matches[i] == e.alias;
          assert es[i] == e;
        }
      }
    }
  }

  /** For two enumerations of the same consistent store, the outcome and the
      store afterwards are the same: what rqs shows does not depend on the
      order in which the store lists its keys. */
  lemma DispatchIgnoresKeyOrder(m: Db, order1: seq<string>, order2: seq<string>, command: string,
                                args: seq<string>, isValidCommand: string -> bool, answer: string)
    requires Enumerates(order1, m) && Enumerates(order2, m) && Consistent(m)
    ensures Dispatch(m, order1, command, args, isValidCommand, answer) ==
            Dispatch(m, order2, command, args, isValidCommand, answer)
  {
    if command in Subcommands && command != "add" && command != "delete"
       && Subcommands[command] == ListAllHandler {
      ListingIgnoresKeyOrder(m, order1, order2);
    }
    if command !in Subcommands {
      var ms1, ms2 := Filter(order1, command), Filter(order2, command);
      assert forall k :: k in ms1 <==> k in ms2;
      DistinctSameElementsSameLength(ms1, ms2);
      if |ms1| > 1 {
        ListingIgnoresKeyOrder(m, ms1, ms2);
      }
      if |ms1| == 1 {
        assert ms1[0] in ms2;
        assert ms1[0] == ms2[0];
      }
    }
  }

  /** The listing of the same set of keys does not depend on their order. */
  lemma ListingIgnoresKeyOrder(m: Db, keys1: seq<string>, keys2: seq<string>)
    requires Consistent(m) && Distinct(keys1) && Distinct(keys2)
    requires forall k :: k in keys1 ==> k in m
    requires forall k :: k in keys1 <==> k in keys2
    ensures ListingOf(m, keys1) == ListingOf(m, keys2)
  {
    var es1, es2 := EntriesOf(m, keys1), EntriesOf(m, keys2);
    EntriesOfDistinctKeys(m, keys1);
    EntriesOfDistinctKeys(m, keys2);
    SortIgnoresInputOrder(es1, es2);
  }

  /** The entries of distinct keys of a consistent store have distinct
      aliases, and an entry is among them exactly when its alias is one of the
      keys. */
  lemma EntriesOfDistinctKeys(m: Db, keys: seq<string>)
    requires Consistent(m) && Distinct(keys)
    requires forall k :: k in keys ==> k in m
    ensures DistinctAliases(EntriesOf(m, keys))
    ensures forall e :: e in EntriesOf(m, keys) <==> e.alias in keys && m[e.alias] == e
  {
    var es := EntriesOf(m, keys);
    forall e ensures e in es <==> e.alias in keys && m[e.alias] == e {
      if e in es {
        var i :| 0 <= i < |es| && es[i] == e;
        assert keys[i] == e.alias;
      }
      if e.alias in keys && m[e.alias] == e {
        var i :| 0 <= i < |keys| && keys[i] == e.alias;
        assert es[i] == e;
      }
    }
  }

  /** After `add alias t1 .. tn`, invoking `alias` runs the joined tokens when
      the probe accepted `t1` (the very tokens when none holds a space) and
      prints the joined tokens otherwise, provided the alias is not a verb and
      holds no wildcard. */
  lemma AddThenLookup(m: Db, order: seq<string>, alias: string, tokens: seq<string>, order': seq<string>,
                      isValidCommand: string -> bool, answer: string)
    requires Enumerates(order, m)
    requires alias !in Subcommands && Plain(alias)
    requires |tokens| >= 1
    requires Enumerates(order', Dispatch(m, order, "add", [alias] + tokens, isValidCommand, answer).1)
    ensures var m1 := Dispatch(m, order, "add", [alias] + tokens, isValidCommand, answer).1;
            var r := Dispatch(m1, order', alias, [], isValidCommand, answer);
            r.1 == m1 &&
            (isValidCommand(tokens[0]) ==>
               r.0.Ran? && Join(r.0.argv) == Join(tokens) && (AllSpaceFree(tokens) ==> r.0.argv == tokens)) &&
            (!isValidCommand(tokens[0]) ==> r.0 == Printed(Join(tokens)))
  {
    var args := [alias] + tokens;
    assert args[0] == alias && args[1..] == tokens;
    AddStoresEntry(m, order, args, isValidCommand, answer);
    var m1 := Dispatch(m, order, "add", args, isValidCommand, answer).1;
    OnlyTheAliasMatches(m1, order', alias);
    if isValidCommand(tokens[0]) && AllSpaceFree(tokens) {
      CommandRunsItsTokens(alias, tokens, isValidCommand);
    }
  }

  /** A plain pattern naming a stored alias matches that alias alone. */
  lemma OnlyTheAliasMatches(m: Db, order: seq<string>, alias: string)
    requires Enumerates(order, m) && Plain(alias) && alias in m
    ensures Filter(order, alias) == [alias]
  {
    var ms := Filter(order, alias);
    forall k ensures k in ms <==> k in [alias] {
      PlainMatchesOnlyItself(k, alias);
    }
    DistinctSameElementsSameLength(ms, [alias]);
    assert ms[0] in [alias];
  }

  /** After `delete key`, invoking `key` finds nothing, provided the key is
      not a verb and holds no wildcard. */
  lemma DeleteThenLookup(m: Db, order: seq<string>, key: string, order': seq<string>,
                         isValidCommand: string -> bool, answer: string)
    requires Enumerates(order, m)
    requires key !in Subcommands && Plain(key)
    requires Enumerates(order', Dispatch(m, order, "delete", [key], isValidCommand, answer).1)
    ensures var m1 := Dispatch(m, order, "delete", [key], isValidCommand, answer).1;
            Dispatch(m1, order', key, [], isValidCommand, answer) == (NoEntry(key), m1)
  {
    var m1 := Dispatch(m, order, "delete", [key], isValidCommand, answer).1;
    assert key !in m1;
    var ms := Filter(order', key);
    if |ms| > 0 {
      assert ms[0] in ms;
      PlainMatchesOnlyItself(ms[0], key);
    }
  }

  /** After a confirmed `delete_all`, the store lists no keys and `list`
      prints the empty notice. */
  lemma DeleteAllThenList(m: Db, order: seq<string>, args: seq<string>, order': seq<string>,
                          listArgs: seq<string>, isValidCommand: string -> bool, answer: string)
    requires Enumerates(order, m) && Confirms(answer)
    requires Enumerates(order', Dispatch(m, order, "delete_all", args, isValidCommand, answer).1)
    ensures order' == []
    ensures var m1 := Dispatch(m, order, "delete_all", args, isValidCommand, answer).1;
            Dispatch(m1, order', "list", listArgs, isValidCommand, answer) == (Listed([]), m1)
    ensures ListingLines([]) == ["Entries:", "empty"]
  {
    DistinctSameElementsSameLength(order', []);
    ListingLinesShowEntries([]);
  }

  /** The names of a store holding `foo1`, `foo2` and `bar` that `foo*`
      matches, and that `baz*` matches. */
  lemma WildcardMatches(k: string)
    requires k == "foo1" || k == "foo2" || k == "bar"
    ensures FnMatch(k, "foo*") <==> k == "foo1" || k == "foo2"
    ensures !FnMatch(k, "baz*")
  {
    var foo, baz := "foo", "baz";
    assert foo + "*" == "foo*" && baz + "*" == "baz*";
    PrefixStarMatchesPrefixes(k, foo);
    PrefixStarMatchesPrefixes(k, baz);
    assert "foo1"[..3] == foo && "foo2"[..3] == foo;
    assert "bar"[..3] == "bar" && "bar"[0] != foo[0] && "bar"[2] != baz[2];
    assert "foo1"[0] != baz[0] && "foo2"[0] != baz[0];
  }

  /** In a store holding `foo1`, `foo2` and `bar`, the pattern `foo*` lists
      the two foo entries and runs nothing. */
  lemma FooStarListsBothFoos(m: Db, order: seq<string>)
    requires Enumerates(order, m) && Consistent(m)
    requires m.Keys == {"foo1", "foo2", "bar"}
    ensures var o := LookupResult(m, order, "foo*");
            o.Listed? && |o.entries| == 2 && forall e :: e in o.entries <==> e == m["foo1"] || e == m["foo2"]
  {
    forall k | k in m ensures FnMatch(k, "foo*") <==> k == "foo1" || k == "foo2" {
      WildcardMatches(k);
    }
    var ms := Filter(order, "foo*");
    DistinctSameElementsSameLength(ms, ["foo1", "foo2"]);
    LookupOutcomes(m, order, "foo*");
    var o := LookupResult(m, order, "foo*");
    forall e ensures e in o.entries <==> e == m["foo1"] || e == m["foo2"] {
      if e == m["foo1"] || e == m["foo2"] {
        assert e.alias in m && m[e.alias] == e;
      }
    }
  }

  /** In a store holding `foo1`, `foo2` and `bar`, the pattern `bar` acts on
      the bar entry alone and `baz*` finds nothing. */
  lemma BarActsAloneBazFindsNothing(m: Db, order: seq<string>)
    requires Enumerates(order, m) && Consistent(m)
    requires m.Keys == {"foo1", "foo2", "bar"}
    ensures var o := LookupResult(m, order, "bar");
            if m["bar"].kind == Command then o.Ran? && Join(o.argv) == m["bar"].content
            else o == Printed(m["bar"].content)
    ensures LookupResult(m, order, "baz*") == NoEntry("baz*")
  {
    OnlyTheAliasMatches(m, order, "bar");
    var none := Filter(order, "baz*");
    if |none| > 0 {
      assert none[0] in none;
      WildcardMatches(none[0]);
    }
  }
}
