/** Shell-style wildcard matching as rqs uses it through `fnmatch.filter`
    (rqs.py:114) on POSIX: case-sensitive, `*` matches any run of characters
    including `/`, `?` any one character, `[...]` a set of characters (`[!...]`
    its complement, `a-z` a range), and an unclosed `[` stands for itself.
    Python compiles the pattern to a regular expression that must match the
    whole name; here the pattern is translated to a list of atoms and the atoms
    are matched against the whole name. */
module Glob {
  import opened Basics

  /** One member of a bracket set. */
  datatype ClassItem = Single(c: char) | Range(lo: char, hi: char)

  datatype Atom =
    | AnyString                                      // `*`
    | AnyChar                                        // `?`
    | Literal(c: char)
    | CharClass(negated: bool, items: seq<ClassItem>) // `[...]` or `[!...]`

  /** Scans from `j` to the first `]`, or to the end of the pattern. */
  function ScanToClose(p: string, j: nat): (k: nat)
    requires j <= |p|
    ensures j <= k <= |p|
    ensures k < |p| ==> p[k] == ']'
    ensures forall i :: j <= i < k ==> p[i] != ']'
    decreases |p| - j
  {
    if j < |p| && p[j] != ']' then ScanToClose(p, j + 1) else j
  }

  /** Where the bracket set opened by `p[0] == '['` closes: after an optional
      `!`, a `]` in first place is a member, not the end. `|p|` when the set
      is never closed. */
  function ClassEnd(p: string): (j: nat)
    requires |p| >= 1
    ensures 1 <= j <= |p|
    ensures j < |p| ==> p[j] == ']' && j >= 2
  {
    var j1 := if 1 < |p| && p[1] == '!' then 2 else 1;
    var j2 := if j1 < |p| && p[j1] == ']' then j1 + 1 else j1;
    ScanToClose(p, j2)
  }

  /** The members of a bracket set: `x-y` is a range wherever a character is
      followed by `-` and one more character; any other character, a leading
      or trailing `-` among them, stands for itself. */
  function ParseItems(s: string): seq<ClassItem>
  {
    if s == [] then []
    else if |s| >= 3 && s[1] == '-' then [Range(s[0], s[2])] + ParseItems(s[3..])
    else [Single(s[0])] + ParseItems(s[1..])
  }

  /** A bracket set's text between `[` and `]`. */
  function ClassAtom(stuff: string): Atom
  {
    if |stuff| > 0 && stuff[0] == '!' then CharClass(true, ParseItems(stuff[1..]))
    else CharClass(false, ParseItems(stuff))
  }

  /** The pattern as a list of atoms, in the manner of `fnmatch.translate`. */
  function Translate(p: string): seq<Atom>
    decreases |p|
  {
    if p == [] then []
    else if p[0] == '*' then [AnyString] + Translate(p[1..])
    else if p[0] == '?' then [AnyChar] + Translate(p[1..])
    else if p[0] == '[' then
      var j := ClassEnd(p);
      if j == |p| then [Literal('[')] + Translate(p[1..])
      else [ClassAtom(p[1..j])] + Translate(p[j + 1..])
    else [Literal(p[0])] + Translate(p[1..])
  }

  predicate ItemHas(item: ClassItem, c: char)
  {
    match item
    case Single(d) => c == d
    case Range(lo, hi) => lo <= c <= hi
  }

  predicate ItemsHave(items: seq<ClassItem>, c: char)
  {
    exists i :: 0 <= i < |items| && ItemHas(items[i], c)
  }

  /** Whether the atoms match the whole of `s`. */
  predicate MatchAtoms(atoms: seq<Atom>, s: string)
    decreases |atoms|, |s|
  {
    if atoms == [] then s == []
    else match atoms[0]
      case AnyString => MatchAtoms(atoms[1..], s) || (s != [] && MatchAtoms(atoms, s[1..]))
      case AnyChar => s != [] && MatchAtoms(atoms[1..], s[1..])
      case Literal(c) => s != [] && s[0] == c && MatchAtoms(atoms[1..], s[1..])
      case CharClass(negated, items) =>
        s != [] && ItemsHave(items, s[0]) != negated && MatchAtoms(atoms[1..], s[1..])
  }

  /** `fnmatch.fnmatch(name, pattern)` on POSIX. */
  predicate FnMatch(name: string, pattern: string)
  {
    MatchAtoms(Translate(pattern), name)
  }

  /** `fnmatch.filter(names, pattern)`: the names the pattern matches, in the
      order given. */
  function Filter(names: seq<string>, pattern: string): (r: seq<string>)
    ensures forall x :: x in r <==> x in names && FnMatch(x, pattern)
    ensures |r| <= |names|
    ensures Distinct(names) ==> Distinct(r)
    ensures Subsequence(r, names)
  {
    if names == [] then []
    else
      var rest := Filter(names[1..], pattern);
      assert Distinct(names) ==> Distinct(names[1..]) && names[0] !in names[1..];
      if FnMatch(names[0], pattern) then
        assert ([names[0]] + rest)[1..] == rest;
        [names[0]] + rest
      else rest
  }

  /** A pattern without `*`, `?` or `[` is taken literally. */
  predicate Plain(p: string)
  {
    forall i :: 0 <= i < |p| ==> p[i] != '*' && p[i] != '?' && p[i] != '['
  }

  function Literals(p: string): seq<Atom>
  {
    if p == [] then [] else [Literal(p[0])] + Literals(p[1..])
  }

  lemma {:induction false} TranslatePlain(p: string, q: string)
    requires Plain(p)
    ensures Translate(p + q) == Literals(p) + Translate(q)
  {
    if p != [] {
      assert (p + q)[0] == p[0];
      assert (p + q)[1..] == p[1..] + q;
      TranslatePlain(p[1..], q);
    } else {
      assert p + q == q;
    }
  }

  lemma {:induction false} MatchLiterals(p: string, rest: seq<Atom>, s: string)
    ensures MatchAtoms(Literals(p) + rest, s) <==>
            |p| <= |s| && s[..|p|] == p && MatchAtoms(rest, s[|p|..])
  {
    if p != [] {
      assert (Literals(p) + rest)[0] == Literal(p[0]);
      assert (Literals(p) + rest)[1..] == Literals(p[1..]) + rest;
      if s != [] {
        MatchLiterals(p[1..], rest, s[1..]);
        if |p| <= |s| {
          assert s[..|p|] == [s[0]] + s[1..][..|p| - 1];
          assert p == [p[0]] + p[1..];
          assert s[1..][|p| - 1..] == s[|p|..];
        }
      }
    } else {
      assert Literals(p) + rest == rest;
      assert s[..0] == [] && s[0..] == s;
    }
  }

  /** A plain pattern matches exactly the name it spells. */
  lemma PlainMatchesOnlyItself(name: string, p: string)
    requires Plain(p)
    ensures FnMatch(name, p) <==> name == p
  {
    TranslatePlain(p, []);
    assert p + [] == p;
    MatchLiterals(p, [], name);
    assert Literals(p) + [] == Literals(p);
  }

  /** `*` followed by more atoms matches exactly when the rest matches some
      suffix of the name. */
  lemma {:induction false} StarMatchesSomeSuffix(rest: seq<Atom>, s: string)
    ensures MatchAtoms([AnyString] + rest, s) <==>
            exists k :: 0 <= k <= |s| && MatchAtoms(rest, s[k..])
    decreases |s|
  {
    var atoms := [AnyString] + rest;
    assert atoms[1..] == rest;
    if s == [] {
      if MatchAtoms(rest, s) { assert s[0..] == s; }
    } else {
      StarMatchesSomeSuffix(rest, s[1..]);
      if MatchAtoms(atoms, s) {
        if !MatchAtoms(rest, s) {
          var k :| 0 <= k <= |s[1..]| && MatchAtoms(rest, s[1..][k..]);
          assert s[1..][k..] == s[k + 1..];
        } else {
          assert s[0..] == s;
        }
      }
      if exists k :: 0 <= k <= |s| && MatchAtoms(rest, s[k..]) {
        var k :| 0 <= k <= |s| && MatchAtoms(rest, s[k..]);
        if k == 0 {
          assert s[0..] == s;
        } else {
          assert s[1..][k - 1..] == s[k..];
        }
      }
    }
  }

  /** `*` alone matches every name. */
  lemma {:induction false} StarMatchesEverything(name: string)
    ensures FnMatch(name, "*")
  {
    assert "*"[1..] == [];
    assert Translate("*") == [AnyString];
    StarMatchesAnyRest(name);
  }

  lemma {:induction false} StarMatchesAnyRest(s: string)
    ensures MatchAtoms([AnyString], s)
    decreases |s|
  {
    assert [AnyString][1..] == [];
    if s != [] {
      StarMatchesAnyRest(s[1..]);
    }
  }

  /** A plain prefix followed by `*` matches exactly the names that start with
      that prefix. */
  lemma PrefixStarMatchesPrefixes(name: string, prefix: string)
    requires Plain(prefix)
    ensures FnMatch(name, prefix + "*") <==> |prefix| <= |name| && name[..|prefix|] == prefix
  {
    TranslatePlain(prefix, "*");
    assert "*"[1..] == [];
    assert Translate("*") == [AnyString];
    MatchLiterals(prefix, [AnyString], name);
    if |prefix| <= |name| {
      StarMatchesAnyRest(name[|prefix|..]);
    }
  }

  /** `?` matches exactly the one-character names. */
  lemma QuestionMarkMatchesOneCharacter(name: string)
    ensures FnMatch(name, "?") <==> |name| == 1
  {
    assert "?"[1..] == [];
    assert Translate("?") == [AnyChar];
    assert [AnyChar][1..] == [];
    assert FnMatch(name, "?") == MatchAtoms([AnyChar], name);
    if |name| == 1 {
      assert name[1..] == [];
    }
  }

  /** The range `a-z` as a bracket set's members. */
  lemma LowercaseRange(c: char)
    ensures ParseItems("a-z") == [Range('a', 'z')]
    ensures ItemsHave([Range('a', 'z')], c) <==> 'a' <= c <= 'z'
  {
    assert "a-z"[3..] == [];
    if 'a' <= c <= 'z' { assert ItemHas([Range('a', 'z')][0], c); }
  }

  /** A closed bracket range matches exactly the one-character names whose
      character is in the range. */
  lemma BracketRange(name: string)
    ensures FnMatch(name, "[a-z]") <==> |name| == 1 && 'a' <= name[0] <= 'z'
  {
    var p := "[a-z]";
    assert ClassEnd(p) == 4 && p[1..4] == "a-z" && p[5..] == [];
    var atoms := [CharClass(false, [Range('a', 'z')])];
    assert "a-z"[3..] == [] && ParseItems("a-z") == [Range('a', 'z')];
    assert Translate(p) == atoms;
    assert atoms[1..] == [];
    assert FnMatch(name, p) == MatchAtoms(atoms, name);
    if name != [] {
      LowercaseRange(name[0]);
      assert MatchAtoms([], name[1..]) <==> |name| == 1;
    }
  }

  /** `[!...]` matches exactly the one-character names whose character the
      set leaves out. */
  lemma NegatedBracketRange(name: string)
    ensures FnMatch(name, "[!a-z]") <==> |name| == 1 && !('a' <= name[0] <= 'z')
  {
    var p := "[!a-z]";
    assert ClassEnd(p) == 5 && p[1..5] == "!a-z" && "!a-z"[1..] == "a-z" && p[6..] == [];
    var atoms := [CharClass(true, [Range('a', 'z')])];
    assert "a-z"[3..] == [] && ParseItems("a-z") == [Range('a', 'z')];
    assert Translate(p) == atoms;
    assert atoms[1..] == [];
    assert FnMatch(name, p) == MatchAtoms(atoms, name);
    if name != [] {
      LowercaseRange(name[0]);
      assert MatchAtoms([], name[1..]) <==> |name| == 1;
    }
  }

  /** A `]` in first place is a member of the set, not its end: `[]]` matches
      exactly the name `]`. */
  lemma ClosingBracketFirst(name: string)
    ensures FnMatch(name, "[]]") <==> name == "]"
  {
    var p := "[]]";
    var close := [Single(']')];
    assert ClassEnd(p) == 2 && p[1..2] == "]" && p[3..] == [];
    assert "]"[1..] == [];
    assert ParseItems("]") == close;
    assert Translate(p) == [CharClass(false, close)];
    assert FnMatch(name, p) == MatchAtoms([CharClass(false, close)], name);
    if name != [] {
      if name[0] == ']' { assert ItemHas(close[0], name[0]); }
      assert MatchAtoms([], name[1..]) <==> |name| == 1;
      if |name| == 1 && name[0] == ']' { assert name == "]"; }
    }
  }

  /** A `[` that no `]` closes is an ordinary character, and matching goes on
      with the rest of the pattern. */
  lemma UnclosedBracketIsLiteral(name: string, q: string)
    requires forall i :: 0 <= i < |q| ==> q[i] != ']'
    ensures FnMatch(name, "[" + q) <==> |name| >= 1 && name[0] == '[' && FnMatch(name[1..], q)
  {
    var p := "[" + q;
    assert p[1..] == q;
    assert forall i :: 1 <= i < |p| ==> p[i] == q[i - 1];
    assert ClassEnd(p) == |p|;
    assert Translate(p) == [Literal('[')] + Translate(q);
    assert ([Literal('[')] + Translate(q))[1..] == Translate(q);
  }
}
