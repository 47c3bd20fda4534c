/** Slash-separated archive paths: lexical cleaning, the canonical payload paths, and the archive root. */
module Paths {
  import opened Options

  const ROOT: string := "kitpro-backup"

  function Split(s: string): (segments: seq<string>)
    ensures segments != []
  {
    if s == "" then [""]
    else if s[0] == '/' then [""] + Split(s[1..])
    else var rest := Split(s[1..]); [[s[0]] + rest[0]] + rest[1..]
  }

  function Join(segments: seq<string>): string
    requires segments != []
  {
    if |segments| == 1 then segments[0] else segments[0] + "/" + Join(segments[1..])
  }

  predicate Slashless(s: string) { forall i :: 0 <= i < |s| ==> s[i] != '/' }

  lemma JoinOne(x: string)
    ensures Join([x]) == x
  {
  }

  lemma JoinCons(x: string, rest: seq<string>)
    requires rest != []
    ensures Join([x] + rest) == x + "/" + Join(rest)
  {
    assert ([x] + rest)[1..] == rest;
  }

  /** A character put before the first element comes first in the joined path. */
  lemma JoinGrow(c: char, rest: seq<string>)
    requires rest != []
    ensures Join([[c] + rest[0]] + rest[1..]) == [c] + Join(rest)
  {
    hide Join;
    var first := [c] + rest[0];
    if |rest| > 1 {
      JoinCons(first, rest[1..]);
      JoinCons(rest[0], rest[1..]);
      assert [rest[0]] + rest[1..] == rest;
      Regroup([c], rest[0], "/", Join(rest[1..]));
    } else {
      assert [first] + rest[1..] == [first] && rest == [rest[0]];
      JoinOne(first);
      JoinOne(rest[0]);
    }
  }

  lemma Regroup(a: string, b: string, c: string, d: string)
    ensures a + b + c + d == a + (b + c + d)
  {
  }

  lemma {:induction false} JoinOfSplit(s: string)
    ensures Join(Split(s)) == s
  {
    hide Join;
    if s == "" {
      JoinOne("");
    } else {
      JoinOfSplit(s[1..]);
      assert s == [s[0]] + s[1..];
      if s[0] == '/' {
        JoinCons("", Split(s[1..]));
        assert "" + "/" + s[1..] == s;
      } else {
        JoinGrow(s[0], Split(s[1..]));
      }
    }
  }

  lemma {:induction false} SplitAtSlash(a: string, t: string)
    requires Slashless(a)
    ensures Split(a) == [a] && Split(a + "/" + t) == [a] + Split(t)
  {
    var s := a + "/" + t;
    if a == "" {
      assert s[1..] == t;
    } else {
      SplitAtSlash(a[1..], t);
      assert s[1..] == a[1..] + "/" + t;
      var rest := Split(s[1..]);
      assert rest[0] == a[1..] && rest[1..] == Split(t);
      assert [a[0]] + a[1..] == a;
      assert s[0] == a[0];
    }
  }

  lemma {:induction false} SplitOfJoin(segments: seq<string>)
    requires segments != [] && forall i :: 0 <= i < |segments| ==> Slashless(segments[i])
    ensures Split(Join(segments)) == segments
  {
    SplitAtSlash(segments[0], if |segments| == 1 then "" else Join(segments[1..]));
    if |segments| > 1 { SplitOfJoin(segments[1..]); }
  }

  lemma {:induction false} SplitSlashless(s: string)
    ensures forall i :: 0 <= i < |Split(s)| ==> Slashless(Split(s)[i])
  {
    if s != "" { SplitSlashless(s[1..]); }
  }

  /** Lexical cleaning of a relative path, element by element; the stack holds the cleaned elements. */
  function CleanOnto(stack: seq<string>, segments: seq<string>): seq<string>
    decreases |segments|
  {
    if segments == [] then stack
    else if segments[0] == "" || segments[0] == "." then CleanOnto(stack, segments[1..])
    else if segments[0] == ".." && stack != [] && stack[|stack| - 1] != ".." then
      CleanOnto(stack[..|stack| - 1], segments[1..])
    else CleanOnto(stack + [segments[0]], segments[1..])
  }

  function Clean(s: string): string {
    var stack := CleanOnto([], Split(s));
    if stack == [] then "." else Join(stack)
  }

  predicate HasPrefix(s: string, p: string) { |p| <= |s| && s[..|p|] == p }
  predicate HasSuffix(s: string, p: string) { |p| <= |s| && s[|s| - |p|..] == p }

  /** The check on payload paths. */
  predicate Canonical(name: string) {
    && name != "" && !HasPrefix(name, "/") && '\\' !in name && '\0' !in name
    && Clean(name) == name && name != "." && !HasPrefix(name, "../")
  }

  predicate Plain(segment: string) { segment != "" && segment != "." && segment != ".." }
  ghost predicate AllPlain(segments: seq<string>) { forall i :: 0 <= i < |segments| ==> Plain(segments[i]) }

  /** Cleaned elements: none empty or ".", and ".." only at the front. */
  ghost predicate Cleaned(stack: seq<string>) {
    && (forall i :: 0 <= i < |stack| ==> Slashless(stack[i]) && stack[i] != "" && stack[i] != ".")
    && (forall i :: 0 < i < |stack| && stack[i] == ".." ==> stack[i - 1] == "..")
  }

  lemma {:induction false} CleanOntoCleans(stack: seq<string>, segments: seq<string>)
    requires Cleaned(stack) && forall i :: 0 <= i < |segments| ==> Slashless(segments[i])
    ensures Cleaned(CleanOnto(stack, segments))
    decreases |segments|
  {
    if segments != [] {
      if segments[0] == "" || segments[0] == "." {
        CleanOntoCleans(stack, segments[1..]);
      } else if segments[0] == ".." && stack != [] && stack[|stack| - 1] != ".." {
        CleanOntoCleans(stack[..|stack| - 1], segments[1..]);
      } else {
        CleanOntoCleans(stack + [segments[0]], segments[1..]);
      }
    }
  }

  lemma {:induction false} PlainStays(stack: seq<string>, segments: seq<string>)
    requires AllPlain(segments)
    ensures CleanOnto(stack, segments) == stack + segments
    decreases |segments|
  {
    if segments != [] {
      assert Plain(segments[0]);
      PlainStays(stack + [segments[0]], segments[1..]);
    }
  }

  lemma {:induction false} DotsSpread(stack: seq<string>, i: nat)
    requires Cleaned(stack) && i < |stack| && stack[i] == ".."
    ensures stack[0] == ".."
  {
    if i > 0 { DotsSpread(stack, i - 1); }
  }

  lemma FirstSegment(s: string)
    ensures HasPrefix(s, "/") ==> Split(s)[0] == ""
    ensures |Split(s)| > 1 && Split(s)[0] == ".." ==> HasPrefix(s, "../")
    ensures HasPrefix(s, "../") ==> Split(s)[0] == ".."
  {
    JoinOfSplit(s);
    if HasPrefix(s, "../") {
      assert s == ".." + "/" + s[3..];
      SplitAtSlash("..", s[3..]);
    }
  }

  /** The canonical paths are ".." and the paths of plain elements without backslash or NUL. */
  lemma CanonicalExactly(name: string)
    ensures Canonical(name) <==> name == ".." || ('\\' !in name && '\0' !in name && AllPlain(Split(name)))
  {
    hide Split;
    if name == ".." {
      DotDotIsClean();
    } else if Canonical(name) {
      CanonicalIsPlain(name);
    } else if AllPlain(Split(name)) {
      PlainIsClean(name);
    }
  }

  lemma DotDotIsClean()
    ensures Split("..") == [".."] && Clean("..") == ".." && Canonical("..")
  {
    SplitAtSlash("..", "");
    assert CleanOnto([], [".."]) == [".."];
    assert ".."[..1] == ".";
  }

  lemma PlainIsClean(name: string)
    requires AllPlain(Split(name))
    ensures Clean(name) == name && name != "" && name != "." && !HasPrefix(name, "/") && !HasPrefix(name, "../")
  {
    PlainStays([], Split(name));
    assert CleanOnto([], Split(name)) == Split(name);
    JoinOfSplit(name);
    FirstSegment(name);
    assert Plain(Split(name)[0]);
    SplitAtSlash(".", "");
  }

  lemma CanonicalIsPlain(name: string)
    requires Canonical(name) && name != ".."
    ensures AllPlain(Split(name))
  {
    var segments, stack := Split(name), CleanOnto([], Split(name));
    FirstSegment(name);
    JoinOfSplit(name);
    SplitSlashless(name);
    CleanOntoCleans([], segments);
    SplitOfJoin(stack);
    assert segments == stack;
    forall i | 0 <= i < |segments| ensures Plain(segments[i]) {
      if segments[i] == ".." { DotsSpread(stack, i); }
    }
  }

  /** Whether the path, taken below a directory, stays below it. */
  predicate Within(name: string) {
    var stack := CleanOnto([], Split(name));
    stack == [] || stack[0] != ".."
  }

  /** Every canonical path but ".." stays below the directory it is extracted to. */
  lemma CanonicalWithin(name: string)
    requires Canonical(name)
    ensures Within(name) <==> name != ".."
  {
    if name == ".." {
      DotDotIsClean();
    } else {
      CanonicalIsPlain(name);
      PlainStays([], Split(name));
      assert Plain(Split(name)[0]);
    }
  }

  // ----- the archive root --------------------------------------------------------------------------------

  function ArchiveName(name: string): string { ROOT + "/" + name }

  function TrimSlash(name: string): string {
    if HasSuffix(name, "/") then name[..|name| - 1] else name
  }

  /** The payload path of an entry name, if it is acceptable. */
  function ValidateArchiveName(name: string): (r: Option<string>)
    ensures r.Some? ==> Canonical(r.value)
  {
    var trimmed := TrimSlash(name);
    if !HasPrefix(trimmed, ROOT + "/") then None
    else
      var rest := trimmed[|ROOT| + 1..];
      if Canonical(rest) then Some(rest) else None
  }

  lemma {:induction false} LastSegment(s: string)
    requires HasSuffix(s, "/")
    ensures Split(s)[|Split(s)| - 1] == ""
  {
    if |s| > 1 {
      assert HasSuffix(s[1..], "/");
      LastSegment(s[1..]);
      if s[0] != '/' { NotOne(s[1..], |s| - 2); }
    }
  }

  lemma {:induction false} NotOne(s: string, i: nat)
    requires i < |s| && s[i] == '/'
    ensures |Split(s)| > 1
  {
    if i > 0 { NotOne(s[1..], i - 1); }
  }

  lemma CanonicalEnds(name: string)
    requires Canonical(name)
    ensures !HasSuffix(name, "/")
  {
    if HasSuffix(name, "/") {
      LastSegment(name);
      CanonicalIsPlain(name);
    }
  }

  /** Entry names written for a payload path are accepted exactly when it is canonical, and give it back. */
  lemma NamesRoundTrip(name: string)
    ensures Canonical(name) ==> ValidateArchiveName(ArchiveName(name)) == Some(name)
    ensures ValidateArchiveName(ArchiveName(name) + "/") == if Canonical(name) then Some(name) else None
  {
    var full := ArchiveName(name);
    assert TrimSlash(full + "/") == full;
    assert HasPrefix(full, ROOT + "/") && full[|ROOT| + 1..] == name;
    if Canonical(name) {
      CanonicalEnds(name);
      assert full[|full| - 1] == name[|name| - 1];
      assert TrimSlash(full) == full;
    }
  }

  /** a is a directory on the way to b. */
  predicate Ancestor(a: string, b: string) { |a| < |b| && b[..|a|] == a && b[|a|] == '/' }

  function Ancestors(b: string): set<string> { set i | 0 <= i < |b| && b[i] == '/' :: b[..i] }

  lemma AncestorsExactly(a: string, b: string)
    ensures a in Ancestors(b) <==> Ancestor(a, b)
  {
    if Ancestor(a, b) { assert b[..|a|] == a; }
  }
}
