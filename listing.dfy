/** The order in which `print_entries` shows entries (rqs.py:141-148): the
    list is sorted on the key `(entry.type.value, entry.alias)` with
    `reverse=True`, then printed one rendered line per entry. */
module Listing {
  import opened Basics
  import opened Entries

  /** Python's `<` on str: code point by code point, and a proper prefix comes
      first. */
  predicate StrLess(a: string, b: string)
  {
    if a == [] then b != []
    else if b == [] then false
    else a[0] < b[0] || (a[0] == b[0] && StrLess(a[1..], b[1..]))
  }

  /** Python's `<` on the sort key `(type.value, alias)`: tuples compare by
      their first component, then by the second. */
  predicate KeyLess(x: Entry, y: Entry)
  {
    StrLess(x.kind.Value(), y.kind.Value())
    || (x.kind.Value() == y.kind.Value() && StrLess(x.alias, y.alias))
  }

  /** What `sort(..., reverse=True)` guarantees: no entry has a smaller key
      than one after it. */
  predicate Descending(s: seq<Entry>)
  {
    forall i, j :: 0 <= i < j < |s| ==> !KeyLess(s[i], s[j])
  }

  predicate StrictlyDescending(s: seq<Entry>)
  {
    forall i, j :: 0 <= i < j < |s| ==> KeyLess(s[j], s[i])
  }

  predicate DistinctAliases(s: seq<Entry>)
  {
    forall i, j :: 0 <= i < j < |s| ==> s[i].alias != s[j].alias
  }

  lemma {:induction false} StrLessIrreflexive(a: string)
    ensures !StrLess(a, a)
  {
    if a != [] { StrLessIrreflexive(a[1..]); }
  }

  lemma {:induction false} StrLessTransitive(a: string, b: string, c: string)
    requires StrLess(a, b) && StrLess(b, c)
    ensures StrLess(a, c)
  {
    if a != [] && b != [] && c != [] && a[0] == b[0] == c[0] {
      StrLessTransitive(a[1..], b[1..], c[1..]);
    }
  }

  lemma {:induction false} StrLessTotal(a: string, b: string)
    ensures a == b || StrLess(a, b) || StrLess(b, a)
  {
    if a != [] && b != [] && a[0] == b[0] {
      StrLessTotal(a[1..], b[1..]);
      if a[1..] == b[1..] {
        assert a == [a[0]] + a[1..] && b == [b[0]] + b[1..];
      }
    }
  }

  lemma StrLessAsymmetric(a: string, b: string)
    requires StrLess(a, b)
    ensures !StrLess(b, a)
  {
    if StrLess(b, a) {
      StrLessTransitive(a, b, a);
      StrLessIrreflexive(a);
    }
  }

  /** The sort key tells the kinds apart: "command" < "text". */
  lemma CommandKeyBelowText()
    ensures StrLess(Command.Value(), Text.Value())
    ensures !StrLess(Text.Value(), Command.Value())
  {
  }

  lemma KeyLessTransitive(x: Entry, y: Entry, z: Entry)
    requires KeyLess(x, y) && KeyLess(y, z)
    ensures KeyLess(x, z)
  {
    var a, b, c := x.kind.Value(), y.kind.Value(), z.kind.Value();
    StrLessIrreflexive(a);
    StrLessIrreflexive(b);
    if StrLess(a, b) && StrLess(b, c) { StrLessTransitive(a, b, c); }
    if a == b && b == c { StrLessTransitive(x.alias, y.alias, z.alias); }
  }

  lemma KeyLessAsymmetric(x: Entry, y: Entry)
    requires KeyLess(x, y)
    ensures !KeyLess(y, x)
  {
    var a, b := x.kind.Value(), y.kind.Value();
    StrLessIrreflexive(a);
    if StrLess(a, b) { StrLessAsymmetric(a, b); }
    if a == b { StrLessAsymmetric(x.alias, y.alias); }
  }

  /** Two keys are equal or one is below the other. */
  lemma KeyLessTotal(x: Entry, y: Entry)
    ensures (x.kind == y.kind && x.alias == y.alias) || KeyLess(x, y) || KeyLess(y, x)
  {
    StrLessTotal(x.kind.Value(), y.kind.Value());
    StrLessTotal(x.alias, y.alias);
  }

  /** "Not below" is transitive, which is what lets an insertion keep order. */
  lemma NotBelowTransitive(x: Entry, y: Entry, z: Entry)
    requires !KeyLess(x, y) && !KeyLess(y, z)
    ensures !KeyLess(x, z)
  {
    KeyLessTotal(x, y);
    KeyLessTotal(y, z);
    if KeyLess(x, z) {
      if KeyLess(y, x) { KeyLessTransitive(y, x, z); }
      else if KeyLess(z, y) { KeyLessTransitive(x, z, y); }
    }
  }

  /** Places `e` in front of the first entry whose key is not above its own. */
  function Insert(e: Entry, s: seq<Entry>): seq<Entry>
  {
    if s == [] || !KeyLess(e, s[0]) then [e] + s
    else [s[0]] + Insert(e, s[1..])
  }

  /** `entries.sort(key=lambda x: (x.type.value, x.alias), reverse=True)`,
      as an insertion sort; like Python's sort it keeps entries with equal
      keys in their original order. */
  function SortDescending(s: seq<Entry>): seq<Entry>
  {
    if s == [] then [] else Insert(s[0], SortDescending(s[1..]))
  }

  /** Inserting adds exactly the entry. */
  lemma {:induction false} InsertPermutes(e: Entry, s: seq<Entry>)
    ensures multiset(Insert(e, s)) == multiset(s) + multiset{e}
  {
    if !(s == [] || !KeyLess(e, s[0])) {
      InsertPermutes(e, s[1..]);
      assert s == [s[0]] + s[1..];
    }
  }

  /** An entry of a descending list is not below anything inserted after it. */
  lemma HeadNotBelowInserted(e: Entry, s: seq<Entry>)
    requires Descending(s) && s != [] && KeyLess(e, s[0])
    ensures forall x :: x in Insert(e, s[1..]) ==> !KeyLess(s[0], x)
  {
    var tail := s[1..];
    var t := Insert(e, tail);
    InsertPermutes(e, tail);
    KeyLessAsymmetric(e, s[0]);
    forall x | x in t ensures !KeyLess(s[0], x) {
      assert x in multiset(t);
      if x != e {
        assert x in multiset(tail);
        var k :| 0 <= k < |tail| && tail[k] == x;
        assert s[k + 1] == x;
      }
    }
  }

  lemma {:induction false} InsertSorted(e: Entry, s: seq<Entry>)
    requires Descending(s)
    ensures multiset(Insert(e, s)) == multiset(s) + multiset{e}
    ensures Descending(Insert(e, s))
  {
    InsertPermutes(e, s);
    if s == [] || !KeyLess(e, s[0]) {
      var r := [e] + s;
      forall i, j | 0 <= i < j < |r| ensures !KeyLess(r[i], r[j]) {
        if i == 0 && j > 1 {
          NotBelowTransitive(e, s[0], s[j - 1]);
        }
      }
    } else {
      var tail := s[1..];
      assert Descending(tail);
      InsertSorted(e, tail);
      HeadNotBelowInserted(e, s);
      var t := Insert(e, tail);
      var r := [s[0]] + t;
      forall i, j | 0 <= i < j < |r| ensures !KeyLess(r[i], r[j]) {
        assert r[j] == t[j - 1] && r[j] in t;
        if i > 0 { assert r[i] == t[i - 1]; }
      }
    }
  }

  /** The sort gives a descending permutation of its input. */
  lemma {:induction false} SortDescendingSorts(s: seq<Entry>)
    ensures multiset(SortDescending(s)) == multiset(s)
    ensures Descending(SortDescending(s))
  {
    if s != [] {
      SortDescendingSorts(s[1..]);
      InsertSorted(s[0], SortDescending(s[1..]));
      assert s == [s[0]] + s[1..];
    }
  }

  /** Inserting an entry whose alias is new keeps the aliases distinct. */
  lemma {:induction false} InsertKeepsAliasesDistinct(e: Entry, s: seq<Entry>)
    requires DistinctAliases(s)
    requires forall i :: 0 <= i < |s| ==> s[i].alias != e.alias
    ensures DistinctAliases(Insert(e, s))
    ensures forall x :: x in Insert(e, s) <==> x in s || x == e
  {
    if !(s == [] || !KeyLess(e, s[0])) {
      InsertKeepsAliasesDistinct(e, s[1..]);
      var t := Insert(e, s[1..]);
      assert forall x :: x in s <==> x == s[0] || x in s[1..];
      forall j | 0 <= j < |t| ensures t[j].alias != s[0].alias {
        assert t[j] in t;
        if t[j] != e {
          var k :| 0 <= k < |s[1..]| && s[1..][k] == t[j];
          assert s[k + 1] == t[j];
        }
      }
      var r := [s[0]] + t;
      forall i, j | 0 <= i < j < |r| ensures r[i].alias != r[j].alias {
        if i > 0 { assert r[i] == t[i - 1] && r[j] == t[j - 1]; }
        else { assert r[j] == t[j - 1]; }
      }
    }
  }

  /** Sorting entries with distinct aliases keeps them distinct. */
  lemma {:induction false} SortKeepsAliasesDistinct(s: seq<Entry>)
    requires DistinctAliases(s)
    ensures DistinctAliases(SortDescending(s))
    ensures forall x :: x in SortDescending(s) <==> x in s
  {
    if s != [] {
      var tail := s[1..];
      assert DistinctAliases(tail);
      SortKeepsAliasesDistinct(tail);
      var sorted := SortDescending(tail);
      forall i | 0 <= i < |sorted| ensures sorted[i].alias != s[0].alias {
        assert sorted[i] in sorted;
        var k :| 0 <= k < |tail| && tail[k] == sorted[i];
        assert s[k + 1] == sorted[i];
      }
      InsertKeepsAliasesDistinct(s[0], sorted);
      assert forall x :: x in s <==> x == s[0] || x in tail;
    }
  }

  /** With distinct aliases no two keys tie, so the order is strict. */
  lemma DescendingDistinctIsStrict(s: seq<Entry>)
    requires Descending(s) && DistinctAliases(s)
    ensures StrictlyDescending(s)
  {
    forall i, j | 0 <= i < j < |s| ensures KeyLess(s[j], s[i]) {
      KeyLessTotal(s[i], s[j]);
    }
  }

  /** A strictly descending sequence is determined by its elements. */
  lemma {:induction false} StrictlyDescendingUnique(a: seq<Entry>, b: seq<Entry>)
    requires StrictlyDescending(a) && StrictlyDescending(b)
    requires forall x :: x in a <==> x in b
    ensures a == b
    decreases |a|
  {
    assert a != [] ==> a[0] in b;
    assert b != [] ==> b[0] in a;
    if a != [] {
      var j :| 0 <= j < |b| && b[j] == a[0];
      var i :| 0 <= i < |a| && a[i] == b[0];
      if i > 0 && j > 0 {
        assert KeyLess(a[i], a[0]) && KeyLess(b[j], b[0]);
        KeyLessAsymmetric(a[0], b[0]);
      }
      assert a[0] == b[0];
      forall x ensures x in a[1..] <==> x in b[1..] {
        if x in a[1..] {
          var k :| 0 <= k < |a[1..]| && a[1..][k] == x;
          assert KeyLess(a[k + 1], a[0]);
          KeyLessAsymmetric(a[k + 1], a[0]);
          assert x in b;
        }
        if x in b[1..] {
          var k :| 0 <= k < |b[1..]| && b[1..][k] == x;
          assert KeyLess(b[k + 1], b[0]);
          KeyLessAsymmetric(b[k + 1], b[0]);
          assert x in a;
        }
      }
      StrictlyDescendingUnique(a[1..], b[1..]);
      assert a == [a[0]] + a[1..] && b == [b[0]] + b[1..];
    }
  }

  /** Two lists holding the same entries, with distinct aliases, sort to the
      same listing: the order the store hands out its keys does not show. */
  lemma SortIgnoresInputOrder(a: seq<Entry>, b: seq<Entry>)
    requires DistinctAliases(a) && DistinctAliases(b)
    requires forall x :: x in a <==> x in b
    ensures SortDescending(a) == SortDescending(b)
  {
    SortDescendingSorts(a);
    SortDescendingSorts(b);
    SortKeepsAliasesDistinct(a);
    SortKeepsAliasesDistinct(b);
    DescendingDistinctIsStrict(SortDescending(a));
    DescendingDistinctIsStrict(SortDescending(b));
    StrictlyDescendingUnique(SortDescending(a), SortDescending(b));
  }

  /** In a descending listing every text entry comes before every command
      entry, and within one kind the aliases descend. */
  lemma DescendingGroupsByKind(s: seq<Entry>, i: int, j: int)
    requires Descending(s) && 0 <= i < j < |s|
    ensures s[i].kind == Command ==> s[j].kind == Command
    ensures s[i].kind == s[j].kind ==> !StrLess(s[i].alias, s[j].alias)
  {
    CommandKeyBelowText();
    assert !KeyLess(s[i], s[j]);
  }

  /** The lines `print_entries` prints: a header, `empty` when there is
      nothing to show, then one tab-indented rendered line per entry. */
  function ListingLines(entries: seq<Entry>): seq<string>
  {
    ["Entries:"] + (if entries == [] then ["empty"] else [])
    + seq(|entries|, i requires 0 <= i < |entries| => "\t" + Render(entries[i]))
  }

  /** The printed listing says `empty` exactly when there are no entries, and
      otherwise holds one line per entry from which the entry can be read
      back when its alias holds no space. */
  lemma ListingLinesShowEntries(entries: seq<Entry>)
    ensures ListingLines(entries) == ["Entries:", "empty"] <==> entries == []
    ensures entries != [] ==> |ListingLines(entries)| == 1 + |entries|
    ensures forall i :: 0 <= i < |entries| && SpaceFree(entries[i].alias) ==>
              ListingLines(entries)[i + 1][0] == '\t' &&
              ParseRendered(ListingLines(entries)[i + 1][1..]) == Some(entries[i])
  {
    var lines := ListingLines(entries);
    if entries != [] {
      assert lines[1] == "\t" + Render(entries[0]);
      assert lines[1][0] == '\t';
    }
    forall i | 0 <= i < |entries| && SpaceFree(entries[i].alias)
      ensures lines[i + 1][0] == '\t' && ParseRendered(lines[i + 1][1..]) == Some(entries[i])
    {
      assert lines[i + 1] == "\t" + Render(entries[i]);
      assert lines[i + 1][1..] == Render(entries[i]);
      RenderRoundTrip(entries[i]);
    }
  }
}
