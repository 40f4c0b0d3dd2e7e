/** Looking a path up: names that a later '..' takes back are skipped before they are looked up. */
module PathWalk {

  // ---------------------------------------------------------------- paths as tokens

  function Slashes(s: string): (n: nat)
    ensures n <= |s| && (n < |s| ==> s[n] != '/') && forall i :: 0 <= i < n ==> s[i] == '/'
  {
    if s == "" || s[0] != '/' then 0 else 1 + Slashes(s[1..])
  }

  function NameLength(s: string): (n: nat)
    ensures n <= |s| && (n < |s| ==> s[n] == '/') && forall i :: 0 <= i < n ==> s[i] != '/'
  {
    if s == "" || s[0] == '/' then 0 else 1 + NameLength(s[1..])
  }

  /** What stands between the slashes. */
  function Tokens(s: string): seq<string>
    decreases |s|
  {
    var t := s[Slashes(s)..];
    if t == "" then []
    else
      var n := NameLength(t);
      assert n > 0;
      [t[..n]] + Tokens(t[n..])
  }

  /** A stack of names: '.' leaves it, '..' takes the last name off, and there must be one. */
  function Clean(tokens: seq<string>, stack: seq<string>): (r: (bool, seq<string>))
    decreases |tokens|
  {
    if tokens == [] then (true, stack)
    else if tokens[0] == "." then Clean(tokens[1..], stack)
    else if tokens[0] == ".." then if stack == [] then (false, []) else Clean(tokens[1..], stack[..|stack| - 1])
    else Clean(tokens[1..], stack + [tokens[0]])
  }

  /** How many tokens it takes to take back depth names; none if they stay. */
  function Match(tokens: seq<string>, depth: nat): (k: nat)
    requires depth > 0
    ensures k <= |tokens|
    decreases |tokens|
  {
    if tokens == [] then 0
    else if tokens[0] == ".." && depth == 1 then 1
    else
      var k := Match(tokens[1..], if tokens[0] == "." then depth else if tokens[0] == ".." then depth - 1 else depth + 1);
      if k == 0 then 0 else 1 + k
  }

  /** Names that are taken back leave no trace, and names that stay are never touched. */
  lemma {:induction false} MatchCleans(tokens: seq<string>, stack: seq<string>, over: seq<string>)
    requires over != []
    ensures var k := Match(tokens, |over|);
            if k > 0 then Clean(tokens, stack + over) == Clean(tokens[k..], stack)
            else Clean(tokens, over).0 && Clean(tokens, stack + over) == (true, stack + Clean(tokens, over).1)
    decreases |tokens|
  {
    if tokens != [] {
      var t, rest := tokens[0], tokens[1..];
      if t == "." {
        MatchCleans(rest, stack, over);
        var k := Match(rest, |over|);
        if k > 0 { assert rest[k..] == tokens[k + 1..]; }
      } else if t == ".." {
        var lower := over[..|over| - 1];
        assert (stack + over)[..|stack + over| - 1] == stack + lower;
        if lower == [] {
          assert stack + lower == stack;
        } else {
          MatchCleans(rest, stack, lower);
          var k := Match(rest, |lower|);
          if k > 0 { assert rest[k..] == tokens[k + 1..]; }
        }
      } else {
        assert stack + over + [t] == stack + (over + [t]);
        MatchCleans(rest, stack, over + [t]);
        var k := Match(rest, |over| + 1);
        if k > 0 { assert rest[k..] == tokens[k + 1..]; }
      }
    }
  }

  predicate IsDot(t: string) { t == "." || t == ".." }

  // the last token is kept if it is a name
  lemma {:induction false} LastKept(tokens: seq<string>, stack: seq<string>)
    requires tokens != [] && !IsDot(tokens[|tokens| - 1]) && Clean(tokens, stack).0
    ensures Clean(tokens, stack).1 != []
    decreases |tokens|
  {
    if |tokens| > 1 {
      var t, rest := tokens[0], tokens[1..];
      if t == "." {
        LastKept(rest, stack);
      } else if t == ".." {
        LastKept(rest, stack[..|stack| - 1]);
      } else {
        LastKept(rest, stack + [t]);
      }
    } else {
      assert tokens[1..] == [];
    }
  }

  // the names that a name at the front leaves to look up
  lemma FirstName(t: string, rest: seq<string>)
    requires !IsDot(t)
    ensures var k := Match(rest, 1);
            if k > 0 then Clean([t] + rest, []) == Clean(rest[k..], [])
            else Clean(rest, []).0 && Clean([t] + rest, []) == (true, [t] + Clean(rest, []).1)
  {
    var none: seq<string> := [];
    assert ([t] + rest)[1..] == rest && ([t] + rest)[0] == t;
    assert none + [t] == [t] && [t][1..] == none;
    assert Clean([t] + rest, []) == Clean(rest, [t]);
    MatchCleans(rest, [], [t]);
    if Match(rest, 1) == 0 { NeverBelow(rest, [t]); }
  }

  // without a match, nothing below the name is needed
  lemma {:induction false} NeverBelow(tokens: seq<string>, over: seq<string>)
    requires over != [] && Match(tokens, |over|) == 0
    ensures Clean(tokens, over[1..]).0 && Clean(tokens, over) == (true, [over[0]] + Clean(tokens, over[1..]).1)
    decreases |tokens|
  {
    assert over == [over[0]] + over[1..];
    if tokens != [] {
      var t, rest := tokens[0], tokens[1..];
      if t == "." {
        NeverBelow(rest, over);
      } else if t == ".." {
        NeverBelow(rest, over[..|over| - 1]);
        assert over[..|over| - 1][1..] == over[1..][..|over[1..]| - 1];
      } else {
        NeverBelow(rest, over + [t]);
        assert (over + [t])[1..] == over[1..] + [t];
      }
    }
  }

  // names that are taken back all go below what is under them
  lemma {:induction false} MatchFails(tokens: seq<string>, over: seq<string>)
    requires over != [] && Match(tokens, |over|) > 0
    ensures !Clean(tokens, over[1..]).0
    decreases |tokens|
  {
    var t, rest := tokens[0], tokens[1..];
    if t == "." {
      MatchFails(rest, over);
    } else if t == ".." {
      if |over| > 1 {
        MatchFails(rest, over[..|over| - 1]);
        assert over[..|over| - 1][1..] == over[1..][..|over[1..]| - 1];
      }
    } else {
      MatchFails(rest, over + [t]);
      assert (over + [t])[1..] == over[1..] + [t];
    }
  }

  // ---------------------------------------------------------------- tokens at the front of a path

  lemma TokensAfterSlashes(s: string)
    ensures Tokens(s[Slashes(s)..]) == Tokens(s)
  {
    var t := s[Slashes(s)..];
    if t != "" {
      assert Slashes(t) == 0;
      assert t[0..] == t;
    }
  }

  lemma FirstToken(s: string)
    requires s != "" && s[0] != '/'
    ensures NameLength(s) > 0 && Tokens(s) == [s[..NameLength(s)]] + Tokens(s[NameLength(s)..])
  {
    assert s[0..] == s;
  }

  /** The path ends with a name, not with a slash or dots. */
  predicate EndsInName(s: string)
  {
    s != "" && s[|s| - 1] != '/' && Tokens(s) != [] && !IsDot(Tokens(s)[|Tokens(s)| - 1])
  }

  // how a path ends does not depend on how it begins
  lemma EndsTheSame(s: string, n: nat)
    requires n <= |s| && Tokens(s[n..]) != [] && |Tokens(s)| >= |Tokens(s[n..])|
    requires Tokens(s)[|Tokens(s)| - |Tokens(s[n..])|..] == Tokens(s[n..])
    ensures EndsInName(s[n..]) <==> EndsInName(s)
  {
    hide Tokens;
    hide IsDot;
    var t, u := Tokens(s), Tokens(s[n..]);
    assert s[n..] != "" by { if s[n..] == "" { NoTokens(); } }
    assert s[|s| - 1] == s[n..][|s[n..]| - 1];
    assert t[|t| - 1] == t[|t| - |u|..][|u| - 1];
  }

  lemma {:induction false} OnlySlashes(s: string)
    ensures Tokens(s) == [] && s != "" ==> s[|s| - 1] == '/'
  {}

  // ---------------------------------------------------------------- the tree

  datatype Entry = File(id: int) | Dir(children: map<string, Entry>)

  datatype Result = Found(entry: Entry) | NoEntry | NotDir | Invalid

  /** Looking names up one after the other. */
  function Resolve(e: Entry, names: seq<string>): Result
    decreases |names|
  {
    if names == [] then Found(e)
    else if e.File? then NotDir
    else if names[0] !in e.children then NoEntry
    else Resolve(e.children[names[0]], names[1..])
  }

  // the first k names lead to an entry
  predicate LeadsTo(e: Entry, names: seq<string>, k: nat, x: Entry)
    requires k <= |names|
    decreases k
  {
    if k == 0 then x == e
    else e.Dir? && names[0] in e.children && LeadsTo(e.children[names[0]], names[1..], k - 1, x)
  }

  // where it stops short, and at what
  ghost predicate StopsAt(e: Entry, names: seq<string>, k: nat, x: Entry, why: Result)
  {
    && k < |names| && LeadsTo(e, names, k, x)
    && if x.File? then why == NotDir else names[k] !in x.children && why == NoEntry
  }

  /** All names lead to what is found; a name is missing if those before lead to a directory that
      does not have it; with names behind a file there is no directory. */
  lemma {:induction false} ResolveIs(e: Entry, names: seq<string>)
    ensures match Resolve(e, names)
            case Found(x) => LeadsTo(e, names, |names|, x)
            case why => why != Invalid && exists k, x :: StopsAt(e, names, k, x, why)
    decreases |names|
  {
    if names != [] && e.Dir? && names[0] in e.children {
      var c, rest := e.children[names[0]], names[1..];
      ResolveIs(c, rest);
      if !Resolve(c, rest).Found? {
        var k: nat, x :| StopsAt(c, rest, k, x, Resolve(c, rest));
        assert StopsAt(e, names, k + 1, x, Resolve(e, names));
      }
    } else if names != [] {
      assert StopsAt(e, names, 0, e, Resolve(e, names));
    }
  }

  /** What looking up a path should give, from an entry on: the names that the stack leaves; a
      file only if the path ends with its name. */
  function Meaning(e: Entry, path: string): Result
  {
    var (ok, names) := Clean(Tokens(path), []);
    if !ok then Invalid
    else
      var r := Resolve(e, names);
      if r.Found? && r.entry.File? && !(if names == [] then path == "" else EndsInName(path)) then NotDir else r
  }

  lemma InvalidIff(e: Entry, path: string)
    ensures Meaning(e, path) == Invalid <==> !Clean(Tokens(path), []).0
  {
    ResolveIs(e, Clean(Tokens(path), []).1);
  }

  lemma SkipSlashes(e: Entry, s: string)
    requires e.Dir?
    ensures Meaning(e, s[Slashes(s)..]) == Meaning(e, s) && Tokens(s[Slashes(s)..]) == Tokens(s)
  {
    hide Tokens;
    hide Clean;
    hide Meaning;
    hide Slashes;
    TokensAfterSlashes(s);
    SameMeaning(e, s, Slashes(s), 0);
  }

  // going on behind the first j tokens
  lemma SameEnd(s: string, n: nat, j: nat)
    requires n <= |s| && j <= |Tokens(s)| && Tokens(s[n..]) == Tokens(s)[j..]
    ensures Tokens(s[n..]) != [] ==> (EndsInName(s[n..]) <==> EndsInName(s))
  {
    if Tokens(s[n..]) != [] { EndsTheSame(s, n); }
  }

  lemma SameMeaning(e: Entry, s: string, n: nat, j: nat)
    requires e.Dir? && n <= |s| && j <= |Tokens(s)| && Tokens(s[n..]) == Tokens(s)[j..]
    requires Clean(Tokens(s)[j..], []) == Clean(Tokens(s), [])
    ensures Meaning(e, s[n..]) == Meaning(e, s)
  {
    SameEnd(s, n, j);
  }

  lemma SkipDot(e: Entry, s: string)
    requires e.Dir? && s != "" && s[0] != '/' && s[..NameLength(s)] == "."
    ensures Meaning(e, s[1..]) == Meaning(e, s) && Clean(Tokens(s[1..]), []) == Clean(Tokens(s), [])
  {
    FirstToken(s);
    SameMeaning(e, s, 1, 1);
  }

  lemma SkipMatched(e: Entry, s: string, n: nat)
    requires e.Dir? && s != "" && s[0] != '/' && !IsDot(s[..NameLength(s)]) && n <= |s|
    requires var k := Match(Tokens(s[NameLength(s)..]), 1); k > 0 && Tokens(s[n..]) == Tokens(s[NameLength(s)..])[k..]
    ensures Meaning(e, s[n..]) == Meaning(e, s) && Clean(Tokens(s[n..]), []) == Clean(Tokens(s), [])
  {
    var t, rest := s[..NameLength(s)], Tokens(s[NameLength(s)..]);
    var k := Match(rest, 1);
    FirstToken(s);
    FirstName(t, rest);
    assert Tokens(s)[1 + k..] == rest[k..];
    SameMeaning(e, s, n, 1 + k);
  }

  lemma AboveRoot(e: Entry, s: string)
    requires s != "" && s[0] != '/' && s[..NameLength(s)] == ".."
    ensures Meaning(e, s) == Invalid && !Clean(Tokens(s), []).0
  {
    FirstToken(s);
  }

  // nothing is left that stays
  lemma NothingKept(tokens: seq<string>)
    requires Clean(tokens, []) == (true, []) && tokens != []
    ensures IsDot(tokens[|tokens| - 1])
  {
    if !IsDot(tokens[|tokens| - 1]) { LastKept(tokens, []); }
  }

  lemma LookUp(e: Entry, s: string)
    requires e.Dir? && s != "" && s[0] != '/' && !IsDot(s[..NameLength(s)]) && Match(Tokens(s[NameLength(s)..]), 1) == 0
    ensures var t, rest := s[..NameLength(s)], s[NameLength(s)..];
            && Clean(Tokens(rest), []).0 && Clean(Tokens(s), []) == (true, [t] + Clean(Tokens(rest), []).1)
            && Meaning(e, s) == if t !in e.children then NoEntry else Meaning(e.children[t], rest)
  {
    hide Tokens;
    hide Clean;
    hide Match;
    hide EndsInName;
    hide NameLength;
    hide IsDot;
    var n := NameLength(s);
    var t, rest := s[..n], s[n..];
    FirstToken(s);
    FirstName(t, Tokens(rest));
    NoTokens();
    var names := Clean(Tokens(rest), []).1;
    assert ([t] + names)[1..] == names;
    if names != [] {
      SameEnd(s, n, 1);
    } else {
      LastName(s);
    }
  }

  // with nothing kept behind it, a name ends the path exactly if nothing at all is behind it
  lemma LastName(s: string)
    requires s != "" && s[0] != '/' && !IsDot(s[..NameLength(s)]) && Clean(Tokens(s[NameLength(s)..]), []) == (true, [])
    ensures EndsInName(s) <==> s[NameLength(s)..] == ""
  {
    var rest := s[NameLength(s)..];
    FirstToken(s);
    if rest == "" {
      assert Tokens(rest) == [];
    } else if Tokens(rest) == [] {
      OnlySlashes(rest);
      assert s[|s| - 1] == rest[|rest| - 1];
    } else {
      NothingKept(Tokens(rest));
      assert Tokens(s)[|Tokens(s)| - 1] == Tokens(rest)[|Tokens(rest)| - 1];
    }
  }

  lemma FileStops(e: Entry, s: string)
    requires e.File? && Clean(Tokens(s), []).0
    ensures Meaning(e, s) == if s == "" then Found(e) else NotDir
  {
    if s == "" { assert Tokens(s) == []; }
  }

  lemma NoTokens()
    ensures Tokens("") == [] && Clean([], []) == (true, [])
  {}

  lemma NothingLeft(e: Entry)
    ensures Meaning(e, "") == Found(e) && Clean(Tokens(""), []) == (true, [])
  {
    NoTokens();
  }

  lemma MatchStep(tokens: seq<string>, depth: nat)
    requires depth > 0
    ensures tokens == [] ==> Match(tokens, depth) == 0
    ensures tokens != [] && !(tokens[0] == ".." && depth == 1) ==>
              var k := Match(tokens[1..], if tokens[0] == "." then depth else if tokens[0] == ".." then depth - 1 else depth + 1);
              Match(tokens, depth) == if k == 0 then 0 else 1 + k
    ensures tokens != [] && tokens[0] == ".." && depth == 1 ==> Match(tokens, depth) == 1
  {}

  /** The tokens left at some depth tell where the name is taken back. */
  predicate Leads(tokens: seq<string>, left: seq<string>, depth: nat)
  {
    && depth > 0
    && (Match(left, depth) == 0 ==> Match(tokens, 1) == 0)
    && (Match(left, depth) > 0 ==> Match(tokens, 1) > 0 && tokens[Match(tokens, 1)..] == left[Match(left, depth)..])
  }

  lemma LeadsFrom(tokens: seq<string>)
    ensures Leads(tokens, tokens, 1)
  {}

  lemma LeadsOn(tokens: seq<string>, left: seq<string>, depth: nat)
    requires Leads(tokens, left, depth)
    ensures left == [] ==> Match(tokens, 1) == 0
    ensures left != [] && !(left[0] == ".." && depth == 1) ==>
              Leads(tokens, left[1..], if left[0] == "." then depth else if left[0] == ".." then depth - 1 else depth + 1)
    ensures left != [] && left[0] == ".." && depth == 1 ==> Match(tokens, 1) > 0 && tokens[Match(tokens, 1)..] == left[1..]
  {
    hide Match;
    MatchStep(left, depth);
    if left != [] && !(left[0] == ".." && depth == 1) {
      var k := Match(left[1..], if left[0] == "." then depth else if left[0] == ".." then depth - 1 else depth + 1);
      assert left[1..][k..] == left[1 + k..];
    }
  }

  // ---------------------------------------------------------------- the walk

  /** Looks for the '..' that takes the name in front of suffix back, and gives the place behind
      it. */
  method FindMatch(path: string) returns (n: nat, found: bool)
    ensures found <==> Match(Tokens(path), 1) > 0
    ensures found ==> 0 < n <= |path| && Tokens(path[n..]) == Tokens(path)[Match(Tokens(path), 1)..]
  {
    hide Tokens;
    hide Match;
    hide Leads;
    hide NameLength;
    n, found := 0, false;
    var depth: nat := 1;
    ghost var tokens := Tokens(path);
    ghost var left := tokens;
    assert path[0..] == path;
    LeadsFrom(tokens);
    while true
      invariant n <= |path| && depth > 0 && Tokens(path[n..]) == left
      invariant Leads(tokens, left, depth)
      decreases |path| - n
    {
      var u := path[n..];
      TokensAfterSlashes(u);
      n := n + Slashes(u);
      var suffix := path[n..];
      assert suffix == u[Slashes(u)..];
      var length := NameLength(suffix);
      LeadsOn(tokens, left, depth);
      if length == 0 {
        assert suffix == "";
        NoTokens();
        return n, false;
      }
      FirstToken(suffix);
      assert path[n + length..] == suffix[length..];
      var t := suffix[..length];
      assert left == [t] + Tokens(path[n + length..]);
      assert left[1..] == Tokens(path[n + length..]);
      n := n + length;
      if t == "." {
        // stays where it is
      } else if t == ".." {
        depth := depth - 1;
        if depth == 0 {
          return n, true;
        }
      } else {
        depth := depth + 1;
      }
      left := left[1..];
    }
  }

  predicate EndOf(path: string, s: string)
  {
    |s| <= |path| && s == path[|path| - |s|..]
  }

  lemma EndOfItself(path: string)
    ensures EndOf(path, path)
  {}

  // the end of an end
  lemma EndOfRest(path: string, s: string, n: nat)
    requires EndOf(path, s) && n <= |s|
    ensures EndOf(path, s[n..])
  {
    assert s[n..] == path[|path| - |s| + n..];
  }

  /** The test whether a path is a single name, perhaps with slashes behind it. */
  function IsLast(path: string): bool
  {
    var n := NameLength(path);
    path[n..][Slashes(path[n..])..] == ""
  }

  /** A name that is missing may be created exactly if nothing is behind it in the path; then
      all other names were found. */
  lemma LastIff(s: string)
    requires s != "" && s[0] != '/'
    ensures IsLast(s) <==> Tokens(s) == [s[..NameLength(s)]]
    ensures IsLast(s) && !IsDot(s[..NameLength(s)]) ==> Clean(Tokens(s), []) == (true, [s[..NameLength(s)]])
  {
    FirstToken(s);
    var t, none: seq<string> := s[..NameLength(s)], [];
    assert [t][1..] == none && none + [t] == [t];
    if IsLast(s) && !IsDot(t) {
      assert Clean([t], none) == Clean(none, [t]);
    }
  }

  /** Finds what a path names. Every name that is looked up is one that the stack leaves; a path
      that goes above the root is refused before anything is looked up. If there is no such
      entry, the caller gets the end of the path that starts with the missing name. */
  method Find(root: Entry, path: string) returns (r: Result, last: string, ghost looked: seq<string>)
    requires root.Dir?
    ensures r == if path == "" then Invalid else Meaning(root, path)
    ensures r == Invalid <==> path == "" || !Clean(Tokens(path), []).0
    ensures r == Invalid ==> looked == []
    ensures r != Invalid ==> looked <= Clean(Tokens(path), []).1
    ensures r.Found? ==> looked == Clean(Tokens(path), []).1
    ensures EndOf(path, last)
    ensures r == NoEntry ==>
              && looked != [] && last[..NameLength(last)] == looked[|looked| - 1]
              && Clean(Tokens(path), []).1 == looked[..|looked| - 1] + Clean(Tokens(last), []).1
  {
    hide Tokens;
    hide Match;
    hide Clean;
    hide Meaning;
    hide EndsInName;
    hide Resolve;
    hide NameLength;
    hide EndOf;
    hide Slashes;
    looked, last := [], path;
    InvalidIff(root, path);
    EndOfItself(path);
    if path == "" {
      return Invalid, path, [];
    }
    var name, entry := path, root;
    while true
      invariant Meaning(entry, name) == Meaning(root, path)
      invariant Clean(Tokens(path), []).0 == Clean(Tokens(name), []).0
      invariant Clean(Tokens(path), []).0 ==> Clean(Tokens(path), []).1 == looked + Clean(Tokens(name), []).1
      invariant looked != [] ==> Clean(Tokens(name), []).0
      invariant entry.File? ==> looked != [] && (name == "" || name[0] == '/')
      invariant EndOf(path, name) && EndOf(path, last)
      decreases |name|
    {
      if entry.Dir? {
        EndOfRest(path, name, Slashes(name));
        SkipSlashes(entry, name);
        name := name[Slashes(name)..];
      } else {
        FileStops(entry, name);
      }
      var length := NameLength(name);
      EndOfRest(path, name, length);
      if length > 0 { FirstToken(name); }
      // skip '.'
      if name[..length] == "." {
        SkipDot(entry, name);
        name := name[length..];
        continue;
      }
      if name[..length] == ".." {
        AboveRoot(entry, name);
        return Invalid, last, looked;
      }
      var n, found := FindMatch(name[length..]);
      if found {
        MatchedIsDir(entry, name);
        assert name[length + n..] == name[length..][n..];
        SkipMatched(entry, name, length + n);
        EndOfRest(path, name, length + n);
        name := name[length + n..];
        continue;
      }
      if name == "" {
        NothingLeft(entry);
        return Found(entry), last, looked;
      }
      last := name;
      if entry.File? {
        return NotDir, last, looked;
      }
      LookUp(entry, name);
      var t := name[..length];
      ghost var before, names := looked, Clean(Tokens(name[length..]), []).1;
      looked := looked + [t];
      assert looked + names == before + ([t] + names);
      if t !in entry.children {
        return NoEntry, last, looked;
      }
      entry, name := entry.children[t], name[length..];
    }
  }

  // behind a file, or behind the whole path, nothing takes a name back
  lemma MatchedIsDir(e: Entry, name: string)
    requires e.File? ==> Clean(Tokens(name), []).0 && (name == "" || name[0] == '/')
    requires e.Dir? ==> name == "" || name[0] != '/'
    requires Match(Tokens(name[NameLength(name)..]), 1) > 0
    ensures e.Dir? && name != ""
  {
    hide Tokens;
    hide Match;
    hide Clean;
    assert name[0..] == name;
    NoTokens();
    MatchStep([], 1);
    if e.File? {
      assert NameLength(name) == 0;
      var over := [""];
      assert over[1..] == [];
      MatchFails(Tokens(name), over);
    }
  }
}
