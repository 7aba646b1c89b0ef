/**
 * Rust's `str::lines`: the text is cut after every '\n'; each piece loses its
 * '\n' and then a '\r' just before it; a final piece without '\n' is kept as it
 * is, and a text that ends in '\n' has no empty last line.
 */
module TextLines {
  import opened Wrappers
  import Seqs

  /** Removes one '\r' at the end of a line whose '\n' was already removed. */
  function StripCr(l: string): (r: string)
    ensures r == l || (l == r + "\r")
  {
    if |l| > 0 && l[|l| - 1] == '\r' then l[..|l| - 1] else l
  }

  /** The first line of a non-empty text. */
  function FirstLine(s: string): string
    requires s != []
  {
    var i := Seqs.IndexOf(s, '\n');
    if i == |s| then s else StripCr(s[..i])
  }

  /** What follows the first line and its '\n'. */
  function AfterFirstLine(s: string): (t: string)
    requires s != []
    ensures |t| < |s|
  {
    var i := Seqs.IndexOf(s, '\n');
    if i == |s| then [] else s[i + 1..]
  }

  function Lines(s: string): (ls: seq<string>)
    ensures |ls| <= |s|
    ensures s != [] ==> ls != []
    decreases |s|
  {
    if s == [] then [] else [FirstLine(s)] + Lines(AfterFirstLine(s))
  }

  /** Lines written out one after another, each ended by '\n'. */
  function Joined(ls: seq<string>): string {
    if ls == [] then "" else ls[0] + "\n" + Joined(ls[1..])
  }

  /** A line that survives being written and read back: no '\n' in it, no '\r' at its end. */
  predicate PlainLine(l: string) {
    '\n' !in l && (|l| == 0 || l[|l| - 1] != '\r')
  }

  /** A plain line followed by '\n' is read as that line, then the lines of the rest. */
  lemma LinesCons(l: string, rest: string)
    requires PlainLine(l)
    ensures Lines(l + "\n" + rest) == [l] + Lines(rest)
  {
    var s := l + "\n" + rest;
    assert s == l + ['\n'] + rest;
    Seqs.IndexOfJoin(l, '\n', rest);
    assert FirstLine(s) == l;
    assert AfterFirstLine(s) == rest;
  }

  /** Reading back lines written with '\n' after each gives back the same lines. */
  lemma {:induction false} LinesJoined(ls: seq<string>)
    requires forall k :: 0 <= k < |ls| ==> PlainLine(ls[k])
    ensures Lines(Joined(ls)) == ls
  {
    if ls != [] {
      LinesCons(ls[0], Joined(ls[1..]));
      LinesJoined(ls[1..]);
      assert ls == [ls[0]] + ls[1..];
    }
  }

  /** The final '\n' is optional: adding one to a text without it changes nothing. */
  lemma {:induction false} FinalNewlineOptional(s: string)
    requires s != [] && s[|s| - 1] != '\n' && s[|s| - 1] != '\r'
    ensures Lines(s + "\n") == Lines(s)
    decreases |s|
  {
    var i := Seqs.IndexOf(s, '\n');
    var t := s + "\n";
    if i == |s| {
      Seqs.IndexOfJoin(s, '\n', "");
      assert t == s + ['\n'] + "";
      assert t[i + 1..] == [];
    } else {
      Seqs.IndexOfUnique(t, '\n', i);
      assert t[..i] == s[..i];
      assert t[i + 1..] == s[i + 1..] + "\n";
      FinalNewlineOptional(s[i + 1..]);
    }
  }

  lemma SuffixStep(all: seq<string>, pos: nat, x: string, t: seq<string>)
    requires pos <= |all| && all[pos..] == [x] + t
    ensures pos < |all| && all[pos] == x && all[pos + 1..] == t
  {
    assert all[pos..][0] == x;
    assert all[pos + 1..] == all[pos..][1..];
  }

  /**
   * The iterator `content.lines()`: `rest` is the text not yet consumed;
   * `all` is every line of the original text and `pos` how many were yielded.
   */
  class LineCursor {
    var rest: string
    ghost const all: seq<string>
    ghost var pos: nat

    ghost predicate Valid()
      reads this
    {
      pos <= |all| && Lines(rest) == all[pos..]
    }

    constructor (text: string)
      ensures Valid() && rest == text && all == Lines(text) && pos == 0
    {
      rest := text;
      all := Lines(text);
      pos := 0;
    }

    /** `next()`: the next line of the text, or `None` once every line was yielded. */
    method Next() returns (line: Option<string>)
      requires Valid()
      modifies this
      ensures Valid()
      ensures old(pos) < |all| ==> line == Some(all[old(pos)]) && pos == old(pos) + 1
      ensures old(pos) == |all| ==> line == None && pos == old(pos)
      ensures line.Some? ==> |rest| < |old(rest)|
    {
      if rest == [] {
        return None;
      }
      var i := 0;
      while i < |rest| && rest[i] != '\n'
        invariant 0 <= i <= |rest|
        invariant forall j :: 0 <= j < i ==> rest[j] != '\n'
      {
        i := i + 1;
      }
      Seqs.IndexOfUnique(rest, '\n', i);
      line := Some(if i == |rest| then rest else StripCr(rest[..i]));
      ghost var before := rest;
      rest := if i == |rest| then [] else rest[i + 1..];
      assert rest == AfterFirstLine(before);
      SuffixStep(all, pos, line.value, Lines(rest));
      pos := pos + 1;
    }

    /** `collect()`: every line not yet yielded, in order. */
    method Collect() returns (ls: seq<string>)
      requires Valid()
      modifies this
      ensures Valid()
      ensures ls == all[old(pos)..] && pos == |all|
    {
      ls := [];
      while true
        invariant Valid() && old(pos) <= pos <= |all|
        invariant ls == all[old(pos)..pos]
        decreases |all| - pos
      {
        var line := Next();
        if line.None? {
          break;
        }
        ls := ls + [line.value];
      }
    }
  }
}
