/** The multi-line RE2 patterns `(?m:^IP: (\S+)$)` and `(?m:^PWD: (\S+)$)`
    that pkg/supervisor/get.go and pkg/cmd/load/load.go run with
    `FindAllStringSubmatch`, written out by hand. In multi-line mode `^` and
    `$` hold at the text's ends and next to each `\n`, and `\S` never matches
    `\n`, so a match is always one whole `\n`-separated line: the prefix
    followed by a non-empty run of non-space characters. Matches are reported
    in line order. */
module LineMatch {
  import opened Outcomes

  /** RE2's `\s`: space, `\t`, `\n`, `\f` and `\r` (and not `\v`). */
  predicate IsSpace(c: char) {
    c == ' ' || c == '\t' || c == '\n' || c as int == 12 || c == '\r'
  }

  predicate NoSpace(s: string) {
    forall i :: 0 <= i < |s| ==> !IsSpace(s[i])
  }

  /** The text cut at every `\n` (so `k` newlines give `k + 1` lines). */
  function Lines(s: string): (ls: seq<string>)
    ensures |ls| >= 1
  {
    if s == [] then [[]]
    else
      var rest := Lines(s[1..]);
      if s[0] == '\n' then [[]] + rest
      else [[s[0]] + rest[0]] + rest[1..]
  }

  /** The inverse of `Lines`: the lines glued back with `\n`. */
  function JoinLines(ls: seq<string>): string
    requires |ls| >= 1
  {
    if |ls| == 1 then ls[0] else ls[0] + "\n" + JoinLines(ls[1..])
  }

  /** No line of `Lines(s)` holds a newline. */
  lemma {:induction false} LinesHaveNoNewline(s: string)
    ensures forall i :: 0 <= i < |Lines(s)| ==> '\n' !in Lines(s)[i]
  {
    if s != [] {
      LinesHaveNoNewline(s[1..]);
    }
  }

  /** Splitting loses nothing: gluing the lines back gives the text. */
  lemma {:induction false} JoinLinesOfLines(s: string)
    ensures JoinLines(Lines(s)) == s
  {
    if s != [] {
      var rest := Lines(s[1..]);
      JoinLinesOfLines(s[1..]);
      if s[0] == '\n' {
        assert Lines(s) == [[]] + rest;
        assert JoinLines(Lines(s)) == [] + "\n" + JoinLines(rest);
        assert s == [s[0]] + s[1..];
      } else {
        var ls := Lines(s);
        assert ls == [[s[0]] + rest[0]] + rest[1..];
        if |rest| == 1 {
          assert JoinLines(ls) == [s[0]] + rest[0];
        } else {
          assert ls[1..] == rest[1..];
          assert JoinLines(rest) == rest[0] + "\n" + JoinLines(rest[1..]);
          assert JoinLines(ls) == [s[0]] + rest[0] + "\n" + JoinLines(rest[1..]);
        }
        assert s == [s[0]] + s[1..];
      }
    }
  }

  /** A line without a newline, followed by `\n`, splits off as the first line. */
  lemma {:induction false} LinesAfterLine(a: string, b: string)
    requires '\n' !in a
    ensures Lines(a + "\n" + b) == [a] + Lines(b)
  {
    var s := a + "\n" + b;
    if a == [] {
      assert s[0] == '\n' && s[1..] == b;
    } else {
      assert s[0] == a[0] && s[1..] == a[1..] + "\n" + b;
      LinesAfterLine(a[1..], b);
      assert [a[0]] + a[1..] == a;
    }
  }

  /** The capture group if the whole `line` matches `^prefix(\S+)$`. */
  function MatchLine(prefix: string, line: string): (r: Option<string>)
    ensures r.Some? <==>
      |line| > |prefix| && line[..|prefix|] == prefix && NoSpace(line[|prefix|..])
    ensures r.Some? ==> line == prefix + r.value && r.value != [] && NoSpace(r.value)
  {
    if |line| > |prefix| && line[..|prefix|] == prefix && NoSpace(line[|prefix|..])
    then
      assert line == line[..|prefix|] + line[|prefix|..];
      Some(line[|prefix|..])
    else None
  }

  /** The capture groups of the matching lines, in order. */
  function Matches(prefix: string, ls: seq<string>): seq<string> {
    if ls == [] then []
    else
      match MatchLine(prefix, ls[0])
      case Some(t) => [t] + Matches(prefix, ls[1..])
      case None => Matches(prefix, ls[1..])
  }

  /** What `FindAllStringSubmatch` yields for the pattern `^prefix(\S+)$`
      in multi-line mode: the capture group of each matching line. */
  function FindAll(s: string, prefix: string): seq<string> {
    Matches(prefix, Lines(s))
  }

  /** There is no match exactly when no line matches. */
  lemma {:induction false} NoMatches(prefix: string, ls: seq<string>)
    ensures Matches(prefix, ls) == [] <==>
      forall j :: 0 <= j < |ls| ==> MatchLine(prefix, ls[j]).None?
  {
    if ls != [] {
      NoMatches(prefix, ls[1..]);
      assert forall j :: 1 <= j < |ls| ==> ls[j] == ls[1..][j - 1];
    }
  }

  /** Line `i` is the one and only line of `ls` that matches. */
  predicate OnlyMatchAt(prefix: string, ls: seq<string>, i: int) {
    0 <= i < |ls| && MatchLine(prefix, ls[i]).Some? &&
    forall j :: 0 <= j < |ls| && j != i ==> MatchLine(prefix, ls[j]).None?
  }

  /** If exactly one line matches, it yields the one and only match. */
  lemma {:induction false} OnlyMatchGivesSingle(prefix: string, ls: seq<string>, i: int)
    requires OnlyMatchAt(prefix, ls, i)
    ensures Matches(prefix, ls) == [MatchLine(prefix, ls[i]).value]
  {
    var tail := ls[1..];
    if i == 0 {
      NoMatches(prefix, tail);
      assert forall j :: 0 <= j < |tail| ==> MatchLine(prefix, tail[j]).None? by {
        forall j | 0 <= j < |tail| ensures MatchLine(prefix, tail[j]).None? {
          assert tail[j] == ls[j + 1];
        }
      }
    } else {
      assert MatchLine(prefix, ls[0]).None?;
      assert OnlyMatchAt(prefix, tail, i - 1) by {
        assert tail[i - 1] == ls[i];
        forall j | 0 <= j < |tail| && j != i - 1 ensures MatchLine(prefix, tail[j]).None? {
          assert tail[j] == ls[j + 1];
        }
      }
      OnlyMatchGivesSingle(prefix, tail, i - 1);
    }
  }

  /** A single match comes from a line that is the only matching one. */
  lemma {:induction false} SingleFromOnlyMatch(prefix: string, ls: seq<string>)
    requires |Matches(prefix, ls)| == 1
    ensures exists i :: OnlyMatchAt(prefix, ls, i)
  {
    var tail := ls[1..];
    if MatchLine(prefix, ls[0]).Some? {
      assert Matches(prefix, tail) == [];
      NoMatches(prefix, tail);
      assert OnlyMatchAt(prefix, ls, 0) by {
        forall j | 0 < j < |ls| ensures MatchLine(prefix, ls[j]).None? {
          assert ls[j] == tail[j - 1];
        }
      }
    } else {
      SingleFromOnlyMatch(prefix, tail);
      var k :| OnlyMatchAt(prefix, tail, k);
      assert OnlyMatchAt(prefix, ls, k + 1) by {
        assert ls[k + 1] == tail[k];
        forall j | 0 < j < |ls| && j != k + 1 ensures MatchLine(prefix, ls[j]).None? {
          assert ls[j] == tail[j - 1];
        }
      }
    }
  }

  /** Exactly one match exactly when exactly one line matches. */
  lemma SingleMatch(prefix: string, ls: seq<string>)
    ensures |Matches(prefix, ls)| == 1 <==> exists i :: OnlyMatchAt(prefix, ls, i)
  {
    if |Matches(prefix, ls)| == 1 {
      SingleFromOnlyMatch(prefix, ls);
    }
    if i :| OnlyMatchAt(prefix, ls, i) {
      OnlyMatchGivesSingle(prefix, ls, i);
    }
  }

  /** The two patterns the credential script's output is searched with. */
  const IPPrefix := "IP: "
  const PWDPrefix := "PWD: "

  /** Exactly one match of `prefix` in `s` exactly when exactly one line
      matches, and the match is then that line's capture group. */
  lemma FindAllExactlyOne(s: string, prefix: string)
    ensures |FindAll(s, prefix)| == 1 <==> exists i :: OnlyMatchAt(prefix, Lines(s), i)
    ensures forall i :: OnlyMatchAt(prefix, Lines(s), i) ==>
      FindAll(s, prefix) == [MatchLine(prefix, Lines(s)[i]).value]
  {
    assert FindAll(s, prefix) == Matches(prefix, Lines(s));
    SingleMatch(prefix, Lines(s));
    forall i | OnlyMatchAt(prefix, Lines(s), i)
      ensures FindAll(s, prefix) == [MatchLine(prefix, Lines(s)[i]).value]
    {
      OnlyMatchGivesSingle(prefix, Lines(s), i);
    }
  }
}
