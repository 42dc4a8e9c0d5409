/**
 * The lines the renderer emits. Each line is kept as its four parts so that
 * the shape of the output can be stated part by part; the string the
 * renderer returns is the concatenation of the lines' texts.
 */
module Lines {

  /** The branch drawn before an entry that has a later sibling. */
  const Tee: string := "├── "
  /** The branch drawn before the last surviving entry of a listing. */
  const Corner: string := "└── "
  /** The indentation segment below an entry that has a later sibling. */
  const Pipe: string := "│   "
  /** The indentation segment below the last surviving entry of a listing. */
  const Blank: string := "    "

  /** One emitted line: indentation inherited from the ancestors, the branch
      glyph, the entry's name and the optional size suffix. The root line has
      neither indentation nor branch. */
  datatype Line = Line(indent: string, branch: string, name: string, suffix: string)

  /** The text of a line, terminated by a newline. */
  function Text(l: Line): (t: string)
    ensures |t| > 0 && t[|t| - 1] == '\n'
    ensures |t| == |l.indent| + |l.branch| + |l.name| + |l.suffix| + 1
  {
    l.indent + l.branch + l.name + l.suffix + "\n"
  }

  /** The text of a sequence of lines, one after the other. It is empty
      exactly when there are no lines, holds at least one character per line,
      and otherwise ends in a newline. */
  function Join(ls: seq<Line>): (s: string)
    ensures |ls| <= |s|
    ensures s == "" <==> ls == []
    ensures ls != [] ==> s[|s| - 1] == '\n'
  {
    if ls == [] then "" else Text(ls[0]) + Join(ls[1..])
  }

  /** Joining is a homomorphism from concatenation of lines to concatenation
      of strings. */
  lemma {:induction false} JoinAppend(a: seq<Line>, b: seq<Line>)
    ensures Join(a + b) == Join(a) + Join(b)
  {
    if a == [] {
      assert a + b == b;
    } else {
      assert (a + b)[0] == a[0];
      assert (a + b)[1..] == a[1..] + b;
      JoinAppend(a[1..], b);
    }
  }

  /** The number of newline characters in a string. */
  function Newlines(s: string): nat
  {
    if s == [] then 0 else (if s[0] == '\n' then 1 else 0) + Newlines(s[1..])
  }

  lemma {:induction false} NewlinesAppend(a: string, b: string)
    ensures Newlines(a + b) == Newlines(a) + Newlines(b)
  {
    if a == [] {
      assert a + b == b;
    } else {
      assert (a + b)[0] == a[0];
      assert (a + b)[1..] == a[1..] + b;
      NewlinesAppend(a[1..], b);
    }
  }

  /** A line whose parts hold no newline of their own. */
  predicate SingleLine(l: Line)
  {
    '\n' !in l.indent && '\n' !in l.branch && '\n' !in l.name && '\n' !in l.suffix
  }

  lemma {:induction false} NoNewlines(s: string)
    requires '\n' !in s
    ensures Newlines(s) == 0
  {
    if s != [] {
      assert forall c :: c in s[1..] ==> c in s;
      NoNewlines(s[1..]);
    }
  }

  /** When no part of any line holds a newline, the joined text has exactly
      one newline per line. */
  lemma {:induction false} JoinNewlines(ls: seq<Line>)
    requires forall l :: l in ls ==> SingleLine(l)
    ensures Newlines(Join(ls)) == |ls|
  {
    if ls != [] {
      var l := ls[0];
      assert l in ls;
      NoNewlines(l.indent);
      NoNewlines(l.branch);
      NoNewlines(l.name);
      NoNewlines(l.suffix);
      NewlinesAppend(l.indent, l.branch);
      NewlinesAppend(l.indent + l.branch, l.name);
      NewlinesAppend(l.indent + l.branch + l.name, l.suffix);
      NewlinesAppend(l.indent + l.branch + l.name + l.suffix, "\n");
      assert Newlines("\n") == 1 by {
        assert "\n"[1..] == [];
      }
      NewlinesAppend(Text(l), Join(ls[1..]));
      assert forall m :: m in ls[1..] ==> m in ls;
      JoinNewlines(ls[1..]);
    }
  }

  /** A string made of whole indentation segments, each `Pipe` or `Blank`. */
  predicate Indentation(s: string)
    decreases |s|
  {
    s == [] || (|s| >= 4 && (s[..4] == Pipe || s[..4] == Blank) && Indentation(s[4..]))
  }
}
