/**
 * Rust's `str::split(" ")` with a one-character separator, as src/main.rs uses it
 * to break a line into its fields. Every space ends a part, so a line with n
 * spaces gives n + 1 parts: the empty line gives one empty part, two spaces in a
 * row give an empty part between them, and a leading or trailing space gives an
 * empty part at that end.
 */
module Text {

  /** Number of separator characters in `s`. */
  function Spaces(s: string): nat {
    multiset(s)[' ']
  }

  /** The parts of `s` between the spaces, in order. */
  function Split(s: string): (parts: seq<string>)
    ensures |parts| == Spaces(s) + 1
    ensures forall i :: 0 <= i < |parts| ==> ' ' !in parts[i]
    decreases |s|
  {
    assert s != [] ==> s == [s[0]] + s[1..];
    if s == [] then [""]
    else
      var rest := Split(s[1..]);
      if s[0] == ' ' then [""] + rest
      else [[s[0]] + rest[0]] + rest[1..]
  }

  /** The parts written back with one space between each two of them. */
  function Join(parts: seq<string>): string
  {
    if parts == [] then ""
    else if |parts| == 1 then parts[0]
    else parts[0] + " " + Join(parts[1..])
  }

  /** Splitting loses nothing: joining the parts gives back the line. */
  lemma {:induction false} JoinSplit(s: string)
    ensures Join(Split(s)) == s
    decreases |s|
  {
    if s != [] {
      JoinSplit(s[1..]);
      JoinSplitStep(s);
    }
  }

  lemma JoinSplitStep(s: string)
    requires s != [] && Join(Split(s[1..])) == s[1..]
    ensures Join(Split(s)) == s
  {
    var rest := Split(s[1..]);
    assert s == [s[0]] + s[1..];
    if s[0] == ' ' {
      assert Split(s) == [""] + rest;
      JoinCons("", rest);
    } else {
      assert Split(s) == [[s[0]] + rest[0]] + rest[1..];
      JoinGlue(s[0], rest);
    }
  }

  lemma JoinCons(p: string, rest: seq<string>)
    requires rest != []
    ensures Join([p] + rest) == p + " " + Join(rest)
  {
    assert ([p] + rest)[1..] == rest;
  }

  /** A character glued to the first part is glued to the front of the join. */
  lemma JoinGlue(c: char, parts: seq<string>)
    requires parts != []
    ensures Join([[c] + parts[0]] + parts[1..]) == [c] + Join(parts)
  {
    if |parts| == 1 {
      assert [[c] + parts[0]] + parts[1..] == [[c] + parts[0]];
    } else {
      JoinGlueMany(c, parts[0], parts[1..]);
      assert parts == [parts[0]] + parts[1..];
    }
  }

  lemma JoinGlueMany(c: char, head: string, tail: seq<string>)
    requires tail != []
    ensures Join([[c] + head] + tail) == [c] + Join([head] + tail)
  {
    JoinCons([c] + head, tail);
    JoinCons(head, tail);
  }

  /** A space-free prefix is glued to the first part of what follows it. */
  lemma {:induction false} SplitSpaceFreePrefix(p: string, t: string)
    requires ' ' !in p
    ensures Split(p + t) == [p + Split(t)[0]] + Split(t)[1..]
    decreases |p|
  {
    if p != [] {
      var q, after := p + t, Split(t);
      assert q[0] == p[0] != ' ';
      assert q[1..] == p[1..] + t;
      SplitSpaceFreePrefix(p[1..], t);
      var rest := Split(q[1..]);
      assert rest[0] == p[1..] + after[0] && rest[1..] == after[1..];
      assert Split(q) == [[p[0]] + rest[0]] + rest[1..];
      assert [p[0]] + (p[1..] + after[0]) == p + after[0];
    } else {
      var parts := Split(t);
      assert p + t == t && p + parts[0] == parts[0];
      assert parts == [parts[0]] + parts[1..];
    }
  }

  /** Space-free parts come back unchanged from splitting their join. */
  lemma {:induction false} SplitJoin(parts: seq<string>)
    requires |parts| >= 1
    requires forall i :: 0 <= i < |parts| ==> ' ' !in parts[i]
    ensures Split(Join(parts)) == parts
    decreases |parts|
  {
    var head := parts[0];
    if |parts| == 1 {
      SplitSpaceFreePrefix(head, "");
      assert head + "" == head;
      assert Split("") == [""];
    } else {
      var rest := parts[1..];
      var tail := Join(rest);
      assert Join(parts) == head + (" " + tail);
      SplitJoin(rest);
      SplitSpaceFreePrefix(head, " " + tail);
      assert (" " + tail)[1..] == tail;
      var after := Split(" " + tail);
      assert after == [""] + rest;
      assert after[0] == "" && after[1..] == rest;
      assert head + "" == head;
      assert parts == [head] + rest;
    }
  }
}
