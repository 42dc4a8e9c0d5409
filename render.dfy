/**
 * What `generateTree` renders for a directory, as a sequence of lines, and
 * the properties of that rendering: glyph choice, indentation growth, order,
 * pruning of hidden and excluded entries, depth gating and line counts.
 */
module Render {
  import opened Entries
  import opened Lines

  /** Whether the renderer descends into `e` when `e` is listed at recursion
      level `level`: only directories, and only while the level is below
      `depth - 1`, or always when `depth` is -1. Below level `depth - 1` every
      directory is descended into; from that level on, unless `depth` is -1,
      none is. */
  predicate Descends(e: Entry, depth: int, level: int)
    ensures Descends(e, depth, level) ==> e.Dir?
    ensures depth == -1 ==> (Descends(e, depth, level) <==> e.Dir?)
    ensures level < depth - 1 ==> (Descends(e, depth, level) <==> e.Dir?)
    ensures depth != -1 && level >= 0 && level + 1 >= depth ==> !Descends(e, depth, level)
  {
    e.Dir? && (level < depth - 1 || depth == -1)
  }

  /** The size annotation drawn after a name: the entry's own size, formatted,
      in parentheses, or nothing when sizes are not shown. */
  function SizeSuffix(size: nat, cfg: Config): (r: string)
    ensures !cfg.showSize ==> r == ""
    ensures cfg.showSize ==>
      && |r| == |cfg.formatSize(size)| + 3
      && r[..2] == " (" && r[2..|r| - 1] == cfg.formatSize(size) && r[|r| - 1] == ')'
  {
    if cfg.showSize then " (" + cfg.formatSize(size) + ")" else ""
  }

  /** The children of `d` that the renderer draws, in listing order. */
  function Kids(d: Entry, cfg: Config): seq<Entry>
    requires d.Dir?
  {
    Visible(d.children, cfg.excluded)
  }

  /** The branch glyph of the child at index `i` of `n` surviving children:
      the corner for the last one, the tee for every other. */
  function Glyph(i: nat, n: nat): (g: string)
    ensures |g| == 4
    ensures g == Corner <==> i + 1 == n
    ensures g == Tee <==> i + 1 != n
  {
    assert Corner[0] != Tee[0];
    if i == n - 1 then Corner else Tee
  }

  /** The indentation segment that the descendants of the child at index `i`
      of `n` surviving children inherit: blank below the last one, a pipe
      below every other. It is one whole indentation segment, as wide as the
      branch glyph, so descendants line up under the child's name. */
  function Continuation(i: nat, n: nat): (c: string)
    ensures Indentation(c) && |c| == |Glyph(i, n)|
    ensures c == Blank <==> i + 1 == n
    ensures c == Pipe <==> i + 1 != n
  {
    assert Blank[0] != Pipe[0];
    var c := if i == n - 1 then Blank else Pipe;
    assert c[..4] == c && c[4..] == [];
    c
  }

  /** The lines rendered for the contents of directory `d`, listed at
      recursion level `level` below indentation `prefix`: at least one per
      surviving child, each indented by `prefix` or more and carrying a tee
      or a corner. */
  function Listing(d: Entry, cfg: Config, level: int, prefix: string): (r: seq<Line>)
    requires d.Dir?
    ensures |Kids(d, cfg)| <= |r|
    ensures forall k :: 0 <= k < |r| ==> prefix <= r[k].indent && (r[k].branch == Tee || r[k].branch == Corner)
    decreases d, 2, 0
  {
    Blocks(d, cfg, level, prefix, |Kids(d, cfg)|)
  }

  /** The lines of the first `n` surviving children of `d`, each followed by
      its subtree. */
  function Blocks(d: Entry, cfg: Config, level: int, prefix: string, n: nat): (r: seq<Line>)
    requires d.Dir? && n <= |Kids(d, cfg)|
    ensures n <= |r|
    ensures forall k :: 0 <= k < |r| ==> prefix <= r[k].indent && (r[k].branch == Tee || r[k].branch == Corner)
    decreases d, 1, n
  {
    if n == 0 then []
    else
      var pre := Blocks(d, cfg, level, prefix, n - 1);
      var blk := Block(d, cfg, level, prefix, n - 1);
      assert forall k :: 0 <= k < |blk| ==> prefix <= blk[k].indent by {
        forall k | 0 <= k < |blk|
          ensures prefix <= blk[k].indent
        {
          if k > 0 {
            var c := Continuation(n - 1, |Kids(d, cfg)|);
            assert prefix <= prefix + c;
          }
        }
      }
      pre + blk
  }

  /** The line of the surviving child at index `i` of `d`, followed by the
      lines of its subtree when the renderer descends into it. The child's
      line sits at `prefix`; every line below it is indented one continuation
      segment deeper. */
  function Block(d: Entry, cfg: Config, level: int, prefix: string, i: nat): (r: seq<Line>)
    requires d.Dir? && i < |Kids(d, cfg)|
    ensures |r| >= 1 && r[0].indent == prefix && (r[0].branch == Tee || r[0].branch == Corner)
    ensures forall k :: 1 <= k < |r| ==>
      prefix + Continuation(i, |Kids(d, cfg)|) <= r[k].indent && (r[k].branch == Tee || r[k].branch == Corner)
    decreases d, 0, 0
  {
    var kids := Kids(d, cfg);
    var e := kids[i];
    assert e in d.children;
    var sub := if Descends(e, cfg.depth, level)
               then Listing(e, cfg, level + 1, prefix + Continuation(i, |kids|))
               else [];
    [Line(prefix, Glyph(i, |kids|), e.name, SizeSuffix(e.size, cfg))] + sub
  }

  /** The line drawn for the root itself: no indentation and no branch, so
      its text is the root's name, its size suffix and a newline. */
  function RootLine(root: Entry, cfg: Config): (l: Line)
    ensures l.indent == "" && l.branch == ""
    ensures Text(l) == root.name + SizeSuffix(root.size, cfg) + "\n"
  {
    Line("", "", root.name, SizeSuffix(root.size, cfg))
  }

  /** The whole rendering of a root directory: its own line, then its
      contents from level 0 with no indentation. The root's line comes first
      and is the only line without a branch glyph. */
  function Document(root: Entry, cfg: Config): (r: seq<Line>)
    requires root.Dir?
    ensures |r| >= 1 + |Kids(root, cfg)|
    ensures r[0] == RootLine(root, cfg)
    ensures forall k :: 1 <= k < |r| ==> r[k].branch == Tee || r[k].branch == Corner
  {
    [RootLine(root, cfg)] + Listing(root, cfg, 0, "")
  }

  // ---------------------------------------------------------------------
  // Order: each child's line, then its whole subtree, then the next child.
  // ---------------------------------------------------------------------

  lemma {:induction false} BlocksPrefix(d: Entry, cfg: Config, level: int, prefix: string, k: nat, n: nat)
    requires d.Dir? && k <= n <= |Kids(d, cfg)|
    ensures |Blocks(d, cfg, level, prefix, k)| <= |Blocks(d, cfg, level, prefix, n)|
    ensures Blocks(d, cfg, level, prefix, n)[..|Blocks(d, cfg, level, prefix, k)|] == Blocks(d, cfg, level, prefix, k)
    decreases n
  {
    if k < n {
      BlocksPrefix(d, cfg, level, prefix, k, n - 1);
    }
  }

  /** Where the child at index `i` lands in the listing of `d`: its line
      comes right after the blocks of the children before it, carrying the
      indentation `prefix`, the branch for its position and its own size, and
      is followed immediately by its whole subtree, indented by the
      continuation for its position, and by nothing else before the next
      sibling's line. */
  lemma {:induction false} ChildPlacement(d: Entry, cfg: Config, level: int, prefix: string, i: nat)
    requires d.Dir? && i < |Kids(d, cfg)|
    ensures var kids := Kids(d, cfg);
            var ls := Listing(d, cfg, level, prefix);
            var start := |Blocks(d, cfg, level, prefix, i)|;
            var stop := |Blocks(d, cfg, level, prefix, i + 1)|;
            var e := kids[i];
            && start < stop <= |ls|
            && ls[start] == Line(prefix, Glyph(i, |kids|), e.name, SizeSuffix(e.size, cfg))
            && ls[start + 1..stop] ==
               (if Descends(e, cfg.depth, level)
                then Listing(e, cfg, level + 1, prefix + Continuation(i, |kids|))
                else [])
  {
    var n := |Kids(d, cfg)|;
    var e := Kids(d, cfg)[i];
    var line := Line(prefix, Glyph(i, n), e.name, SizeSuffix(e.size, cfg));
    var sub := if Descends(e, cfg.depth, level)
               then Listing(e, cfg, level + 1, prefix + Continuation(i, n))
               else [];
    var pre := Blocks(d, cfg, level, prefix, i);
    BlockUnfold(d, cfg, level, prefix, i);
    BlocksUnfold(d, cfg, level, prefix, i + 1);
    BlocksPrefix(d, cfg, level, prefix, i + 1, n);
    SplitAt(Listing(d, cfg, level, prefix), pre, line, sub);
  }

  lemma BlockUnfold(d: Entry, cfg: Config, level: int, prefix: string, i: nat)
    requires d.Dir? && i < |Kids(d, cfg)|
    ensures var kids := Kids(d, cfg);
            var e := kids[i];
            Block(d, cfg, level, prefix, i) ==
              [Line(prefix, Glyph(i, |kids|), e.name, SizeSuffix(e.size, cfg))]
              + (if Descends(e, cfg.depth, level)
                 then Listing(e, cfg, level + 1, prefix + Continuation(i, |kids|))
                 else [])
  {
  }

  lemma BlocksUnfold(d: Entry, cfg: Config, level: int, prefix: string, n: nat)
    requires d.Dir? && 0 < n <= |Kids(d, cfg)|
    ensures Blocks(d, cfg, level, prefix, n) ==
            Blocks(d, cfg, level, prefix, n - 1) + Block(d, cfg, level, prefix, n - 1)
  {
  }

  /** A sequence that begins with `pre`, then `x`, then `post` holds `x`
      right after `pre` and `post` right after that. */
  lemma SplitAt<T>(s: seq<T>, pre: seq<T>, x: T, post: seq<T>)
    requires |pre + ([x] + post)| <= |s| && s[..|pre + ([x] + post)|] == pre + ([x] + post)
    ensures s[|pre|] == x
    ensures s[|pre| + 1..|pre| + 1 + |post|] == post
  {
    var whole := pre + ([x] + post);
    assert s[|pre|] == whole[|pre|];
    assert s[|pre| + 1..|pre| + 1 + |post|] == whole[|pre| + 1..];
  }

  /** In a listing, the line of the surviving child at index `i` carries
      the corner exactly when that child is the last one, and the tee
      otherwise; every line of its subtree is indented by `prefix` followed by
      the blank segment when the child is the last one, and by the pipe
      otherwise. */
  lemma GlyphChoice(d: Entry, cfg: Config, level: int, prefix: string, i: nat)
    requires d.Dir? && i < |Kids(d, cfg)|
    ensures var n := |Kids(d, cfg)|;
            var ls := Listing(d, cfg, level, prefix);
            var start := |Blocks(d, cfg, level, prefix, i)|;
            var stop := |Blocks(d, cfg, level, prefix, i + 1)|;
            && start < stop <= |ls|
            && (ls[start].branch == Corner <==> i == n - 1)
            && (ls[start].branch == Tee <==> i < n - 1)
            && forall k :: start < k < stop ==>
                 prefix + (if i == n - 1 then Blank else Pipe) <= ls[k].indent
  {
    ChildPlacement(d, cfg, level, prefix, i);
    var kids := Kids(d, cfg);
    var ls := Listing(d, cfg, level, prefix);
    var start := |Blocks(d, cfg, level, prefix, i)|;
    var stop := |Blocks(d, cfg, level, prefix, i + 1)|;
    var seg := Continuation(i, |kids|);
    forall k | start < k < stop
      ensures prefix + seg <= ls[k].indent
    {
      var sub := Listing(kids[i], cfg, level + 1, prefix + seg);
      assert ls[k] == ls[start + 1..stop][k - start - 1] == sub[k - start - 1];
    }
  }

  /** While the level is below `depth - 1`, every surviving directory child
      is followed in the listing by its whole own listing one level down,
      indented by its continuation: with the default depth of 2, the root's
      grandchildren are drawn. */
  lemma DeepChild(d: Entry, cfg: Config, level: int, prefix: string, i: nat)
    requires d.Dir? && i < |Kids(d, cfg)| && Kids(d, cfg)[i].Dir?
    requires level < cfg.depth - 1
    ensures var kids := Kids(d, cfg);
            var ls := Listing(d, cfg, level, prefix);
            var start := |Blocks(d, cfg, level, prefix, i)|;
            var stop := |Blocks(d, cfg, level, prefix, i + 1)|;
            && start < stop <= |ls|
            && ls[start + 1..stop] == Listing(kids[i], cfg, level + 1, prefix + Continuation(i, |kids|))
  {
    assert Descends(Kids(d, cfg)[i], cfg.depth, level);
    ChildPlacement(d, cfg, level, prefix, i);
  }

  /** A directory renders no line exactly when no child survives the filter,
      and then its text is the empty string. */
  lemma EmptyListing(d: Entry, cfg: Config, level: int, prefix: string)
    requires d.Dir?
    ensures Listing(d, cfg, level, prefix) == [] <==> Kids(d, cfg) == []
    ensures Join(Listing(d, cfg, level, prefix)) == "" <==> Kids(d, cfg) == []
  {
  }

  // ---------------------------------------------------------------------
  // The shape of every line.
  // ---------------------------------------------------------------------

  /** A line drawn below indentation `prefix`: its indentation is `prefix`
      followed by whole `Pipe`/`Blank` segments, its branch is a tee or a
      corner, its name survives the filter, and its suffix is the formatted
      size of some entry (nothing at all when sizes are not shown). */
  ghost predicate Drawn(l: Line, prefix: string, cfg: Config)
  {
    && prefix <= l.indent
    && Indentation(l.indent[|prefix|..])
    && (l.branch == Tee || l.branch == Corner)
    && !Hidden(l.name) && l.name !in cfg.excluded
    && exists n: nat :: l.suffix == SizeSuffix(n, cfg)
  }

  lemma DrawnBelow(l: Line, prefix: string, seg: string, cfg: Config)
    requires seg == Pipe || seg == Blank
    requires Drawn(l, prefix + seg, cfg)
    ensures Drawn(l, prefix, cfg)
  {
  }

  lemma {:induction false} ListingDrawn(d: Entry, cfg: Config, level: int, prefix: string)
    requires d.Dir?
    ensures forall l :: l in Listing(d, cfg, level, prefix) ==> Drawn(l, prefix, cfg)
    decreases d, 2, 0
  {
    BlocksDrawn(d, cfg, level, prefix, |Kids(d, cfg)|);
  }

  lemma {:induction false} BlocksDrawn(d: Entry, cfg: Config, level: int, prefix: string, n: nat)
    requires d.Dir? && n <= |Kids(d, cfg)|
    ensures forall l :: l in Blocks(d, cfg, level, prefix, n) ==> Drawn(l, prefix, cfg)
    decreases d, 1, n
  {
    if n > 0 {
      BlocksDrawn(d, cfg, level, prefix, n - 1);
      BlockDrawn(d, cfg, level, prefix, n - 1);
      BlocksUnfold(d, cfg, level, prefix, n);
    }
  }

  lemma {:induction false} BlockDrawn(d: Entry, cfg: Config, level: int, prefix: string, i: nat)
    requires d.Dir? && i < |Kids(d, cfg)|
    ensures forall l :: l in Block(d, cfg, level, prefix, i) ==> Drawn(l, prefix, cfg)
    decreases d, 0, 0
  {
    var kids := Kids(d, cfg);
    var e := kids[i];
    assert e in kids && e in d.children;
    var line := Line(prefix, Glyph(i, |kids|), e.name, SizeSuffix(e.size, cfg));
    BlockUnfold(d, cfg, level, prefix, i);
    assert Drawn(line, prefix, cfg) by {
      assert line.indent[|prefix|..] == [];
    }
    if Descends(e, cfg.depth, level) {
      var seg := Continuation(i, |kids|);
      var sub := Listing(e, cfg, level + 1, prefix + seg);
      ListingDrawn(e, cfg, level + 1, prefix + seg);
      forall l | l in [line] + sub
        ensures Drawn(l, prefix, cfg)
      {
        if l != line {
          assert l in sub;
          DrawnBelow(l, prefix, seg, cfg);
        }
      }
    } else {
      assert Block(d, cfg, level, prefix, i) == [line] + [];
    }
  }

  /** Without sizes, every line of a listing is exactly its indentation, its
      branch and the name, then a newline. */
  lemma NoSizeLines(d: Entry, cfg: Config, level: int, prefix: string)
    requires d.Dir? && !cfg.showSize
    ensures forall l :: l in Listing(d, cfg, level, prefix) ==>
      Text(l) == l.indent + l.branch + l.name + "\n"
  {
    ListingDrawn(d, cfg, level, prefix);
  }

  // ---------------------------------------------------------------------
  // Hidden and excluded entries are pruned with everything below them.
  // ---------------------------------------------------------------------

  /** The rendering of `d` depends on its children only through those that
      survive the filter. */
  lemma {:induction false} BlocksSameKids(d: Entry, d': Entry, cfg: Config, level: int, prefix: string, n: nat)
    requires d.Dir? && d'.Dir? && Kids(d, cfg) == Kids(d', cfg) && n <= |Kids(d, cfg)|
    ensures Blocks(d, cfg, level, prefix, n) == Blocks(d', cfg, level, prefix, n)
    decreases n
  {
    if n > 0 {
      BlocksSameKids(d, d', cfg, level, prefix, n - 1);
    }
  }

  /** An entry that the filter drops, whatever lies below it, adds nothing
      to the rendering of the directory that lists it, wherever it sits in
      the listing. */
  lemma DroppedChildIrrelevant(d: Entry, c: Entry, j: nat, cfg: Config, level: int, prefix: string)
    requires d.Dir? && j <= |d.children|
    requires Hidden(c.name) || c.name in cfg.excluded
    ensures var d' := d.(children := d.children[..j] + [c] + d.children[j..]);
            Listing(d', cfg, level, prefix) == Listing(d, cfg, level, prefix)
  {
    var a, b := d.children[..j], d.children[j..];
    var d' := d.(children := a + [c] + b);
    var ex := cfg.excluded;
    assert d.children == a + b;
    assert Visible([c], ex) == [] by {
      assert [c][1..] == [];
    }
    calc {
      Kids(d', cfg);
      Visible(a + [c] + b, ex);
      { VisibleAppend(a + [c], b, ex); }
      Visible(a + [c], ex) + Visible(b, ex);
      { VisibleAppend(a, [c], ex); }
      Visible(a, ex) + Visible(b, ex);
      { VisibleAppend(a, b, ex); }
      Kids(d, cfg);
    }
    BlocksSameKids(d, d', cfg, level, prefix, |Kids(d, cfg)|);
  }

  lemma {:induction false} VisibleAllShown(s: seq<Entry>, excluded: set<string>)
    requires forall e :: e in s ==> Shown(e, excluded)
    ensures Visible(s, excluded) == s
  {
    if s != [] {
      assert s[0] in s;
      assert forall e :: e in s[1..] ==> e in s;
      VisibleAllShown(s[1..], excluded);
      assert s == [s[0]] + s[1..];
    }
  }

  lemma PrunedKids(d: Entry, cfg: Config)
    requires d.Dir?
    ensures Prune(d, cfg.excluded).Dir?
    ensures |Kids(Prune(d, cfg.excluded), cfg)| == |Kids(d, cfg)|
    ensures forall i :: 0 <= i < |Kids(d, cfg)| ==>
      Kids(Prune(d, cfg.excluded), cfg)[i] == Prune(Kids(d, cfg)[i], cfg.excluded)
  {
    var kids := Kids(d, cfg);
    var pruned := Prune(d, cfg.excluded).children;
    assert forall j :: 0 <= j < |kids| ==> kids[j] in d.children;
    forall i | 0 <= i < |kids|
      ensures pruned[i] == Prune(kids[i], cfg.excluded)
    {
      PruneAllAt(kids, d, cfg.excluded, i);
    }
    forall e | e in pruned
      ensures Shown(e, cfg.excluded)
    {
      var i :| 0 <= i < |pruned| && pruned[i] == e;
      assert kids[i] in kids;
    }
    VisibleAllShown(pruned, cfg.excluded);
  }

  /** Rendering a tree gives the same lines as rendering it with every
      hidden or excluded entry, and everything below such an entry, removed
      beforehand at every level. */
  lemma {:induction false} ListingPruned(d: Entry, cfg: Config, level: int, prefix: string)
    requires d.Dir?
    ensures Prune(d, cfg.excluded).Dir?
    ensures Listing(Prune(d, cfg.excluded), cfg, level, prefix) == Listing(d, cfg, level, prefix)
    decreases d, 2, 0
  {
    PrunedKids(d, cfg);
    BlocksPruned(d, cfg, level, prefix, |Kids(d, cfg)|);
  }

  lemma {:induction false} BlocksPruned(d: Entry, cfg: Config, level: int, prefix: string, n: nat)
    requires d.Dir? && n <= |Kids(d, cfg)|
    ensures Prune(d, cfg.excluded).Dir?
    ensures |Kids(Prune(d, cfg.excluded), cfg)| == |Kids(d, cfg)|
    ensures Blocks(Prune(d, cfg.excluded), cfg, level, prefix, n) == Blocks(d, cfg, level, prefix, n)
    decreases d, 1, n
  {
    if n == 0 {
      PrunedKids(d, cfg);
    } else {
      var pd := Prune(d, cfg.excluded);
      var i := n - 1;
      BlocksPruned(d, cfg, level, prefix, i);
      PrunedKidAt(d, cfg, i);
      var e := Kids(d, cfg)[i];
      assert e in d.children;
      if e.Dir? {
        ListingPruned(e, cfg, level + 1, prefix + Continuation(i, |Kids(d, cfg)|));
      }
      BlockPruned(d, cfg, level, prefix, i);
      assert Blocks(pd, cfg, level, prefix, n) == Blocks(pd, cfg, level, prefix, i) + Block(pd, cfg, level, prefix, i);
      assert Blocks(d, cfg, level, prefix, n) == Blocks(d, cfg, level, prefix, i) + Block(d, cfg, level, prefix, i);
    }
  }

  lemma PrunedKidAt(d: Entry, cfg: Config, i: nat)
    requires d.Dir? && i < |Kids(d, cfg)|
    ensures Prune(d, cfg.excluded).Dir?
    ensures |Kids(Prune(d, cfg.excluded), cfg)| == |Kids(d, cfg)|
    ensures Kids(Prune(d, cfg.excluded), cfg)[i] == Prune(Kids(d, cfg)[i], cfg.excluded)
  {
    PrunedKids(d, cfg);
  }

  lemma BlockPruned(d: Entry, cfg: Config, level: int, prefix: string, i: nat)
    requires d.Dir? && i < |Kids(d, cfg)|
    requires Prune(d, cfg.excluded).Dir?
    requires |Kids(Prune(d, cfg.excluded), cfg)| == |Kids(d, cfg)|
    requires Kids(Prune(d, cfg.excluded), cfg)[i] == Prune(Kids(d, cfg)[i], cfg.excluded)
    requires var e := Kids(d, cfg)[i];
             e.Dir? ==> Listing(Prune(e, cfg.excluded), cfg, level + 1, prefix + Continuation(i, |Kids(d, cfg)|))
                        == Listing(e, cfg, level + 1, prefix + Continuation(i, |Kids(d, cfg)|))
    ensures Block(Prune(d, cfg.excluded), cfg, level, prefix, i) == Block(d, cfg, level, prefix, i)
  {
  }

  // ---------------------------------------------------------------------
  // Depth gating and line counts.
  // ---------------------------------------------------------------------

  /** Below the depth limit, a listing has exactly one line per surviving
      child, in listing order, with indentation `prefix`, and nothing from
      any grandchild. */
  lemma {:induction false} ShallowListing(d: Entry, cfg: Config, level: int, prefix: string)
    requires d.Dir?
    requires !(level < cfg.depth - 1 || cfg.depth == -1)
    ensures var kids := Kids(d, cfg);
            && |Listing(d, cfg, level, prefix)| == |kids|
            && forall i :: 0 <= i < |kids| ==>
                 Listing(d, cfg, level, prefix)[i] ==
                 Line(prefix, Glyph(i, |kids|), kids[i].name, SizeSuffix(kids[i].size, cfg))
  {
    ShallowBlocks(d, cfg, level, prefix, |Kids(d, cfg)|);
  }

  lemma {:induction false} ShallowBlocks(d: Entry, cfg: Config, level: int, prefix: string, n: nat)
    requires d.Dir? && n <= |Kids(d, cfg)|
    requires !(level < cfg.depth - 1 || cfg.depth == -1)
    ensures var kids := Kids(d, cfg);
            && |Blocks(d, cfg, level, prefix, n)| == n
            && forall i :: 0 <= i < n ==>
                 Blocks(d, cfg, level, prefix, n)[i] ==
                 Line(prefix, Glyph(i, |kids|), kids[i].name, SizeSuffix(kids[i].size, cfg))
    decreases n
  {
    if n > 0 {
      ShallowBlocks(d, cfg, level, prefix, n - 1);
    }
  }

  /** With a depth of 0 or 1, or any negative depth other than -1, the whole
      rendering is the root line followed by exactly one unindented line per
      surviving child of the root, in listing order, the last drawn with the
      corner and every other with the tee. */
  lemma ShallowDocument(root: Entry, cfg: Config)
    requires root.Dir?
    requires cfg.depth == 0 || cfg.depth == 1 || cfg.depth < -1
    ensures |Document(root, cfg)| == 1 + |Kids(root, cfg)|
    ensures forall i :: 1 <= i < |Document(root, cfg)| ==>
      && Document(root, cfg)[i].indent == ""
      && Document(root, cfg)[i].branch == (if i == |Kids(root, cfg)| then Corner else Tee)
      && Document(root, cfg)[i].name == Kids(root, cfg)[i - 1].name
  {
    var ls := Listing(root, cfg, 0, "");
    ShallowListing(root, cfg, 0, "");
    assert Document(root, cfg) == [RootLine(root, cfg)] + ls;
    forall i | 1 <= i < |Document(root, cfg)|
      ensures Document(root, cfg)[i] == ls[i - 1]
    {
    }
  }

  lemma {:induction false} ReachAllAppend(a: seq<Entry>, b: seq<Entry>, parent: Entry, excluded: set<string>)
    requires forall i :: 0 <= i < |a| ==> a[i] < parent
    requires forall i :: 0 <= i < |b| ==> b[i] < parent
    ensures forall i :: 0 <= i < |a + b| ==> (a + b)[i] < parent
    ensures ReachAll(a + b, parent, excluded) == ReachAll(a, parent, excluded) + ReachAll(b, parent, excluded)
  {
    if a == [] {
      assert a + b == b;
    } else {
      assert (a + b)[0] == a[0];
      assert (a + b)[1..] == a[1..] + b;
      ReachAllAppend(a[1..], b, parent, excluded);
    }
  }

  lemma {:induction false} ReachAllVisible(s: seq<Entry>, parent: Entry, excluded: set<string>)
    requires forall i :: 0 <= i < |s| ==> s[i] < parent
    ensures forall i :: 0 <= i < |Visible(s, excluded)| ==> Visible(s, excluded)[i] < parent
    ensures ReachAll(Visible(s, excluded), parent, excluded) == ReachAll(s, parent, excluded)
  {
    var v := Visible(s, excluded);
    forall i | 0 <= i < |v|
      ensures v[i] < parent
    {
      assert v[i] in v;
      var j :| 0 <= j < |s| && s[j] == v[i];
    }
    if s != [] {
      ReachAllVisible(s[1..], parent, excluded);
      if Shown(s[0], excluded) {
        assert v[1..] == Visible(s[1..], excluded);
      }
    }
  }

  /** The rendering of a directory has at least one line per surviving child
      and at most one line per entry reachable through surviving entries;
      with unlimited depth it has exactly one line per such entry. */
  lemma {:induction false} ListingCount(d: Entry, cfg: Config, level: int, prefix: string)
    requires d.Dir?
    ensures |Kids(d, cfg)| <= |Listing(d, cfg, level, prefix)| <= Reach(d, cfg.excluded)
    ensures cfg.depth == -1 ==> |Listing(d, cfg, level, prefix)| == Reach(d, cfg.excluded)
    decreases d, 2, 0
  {
    var kids := Kids(d, cfg);
    BlocksCount(d, cfg, level, prefix, |kids|);
    assert kids[..|kids|] == kids;
    ReachAllVisible(d.children, d, cfg.excluded);
  }

  lemma {:induction false} BlocksCount(d: Entry, cfg: Config, level: int, prefix: string, n: nat)
    requires d.Dir? && n <= |Kids(d, cfg)|
    ensures forall i :: 0 <= i < n ==> Kids(d, cfg)[..n][i] < d
    ensures |Blocks(d, cfg, level, prefix, n)| <= ReachAll(Kids(d, cfg)[..n], d, cfg.excluded)
    ensures cfg.depth == -1 ==>
      |Blocks(d, cfg, level, prefix, n)| == ReachAll(Kids(d, cfg)[..n], d, cfg.excluded)
    decreases d, 1, n
  {
    var kids := Kids(d, cfg);
    forall i | 0 <= i < n
      ensures kids[..n][i] < d
    {
      assert kids[i] in kids;
      assert kids[i] in d.children;
    }
    if n > 0 {
      var i := n - 1;
      var e := kids[i];
      BlocksCount(d, cfg, level, prefix, i);
      BlockCount(d, cfg, level, prefix, i);
      BlocksUnfold(d, cfg, level, prefix, n);
      assert kids[..n] == kids[..i] + [e];
      ReachAllAppend(kids[..i], [e], d, cfg.excluded);
    }
  }

  lemma {:induction false} BlockCount(d: Entry, cfg: Config, level: int, prefix: string, i: nat)
    requires d.Dir? && i < |Kids(d, cfg)|
    ensures Kids(d, cfg)[i] < d
    ensures |Block(d, cfg, level, prefix, i)| <= ReachAll([Kids(d, cfg)[i]], d, cfg.excluded)
    ensures cfg.depth == -1 ==>
      |Block(d, cfg, level, prefix, i)| == ReachAll([Kids(d, cfg)[i]], d, cfg.excluded)
    decreases d, 0, 0
  {
    var kids := Kids(d, cfg);
    var e := kids[i];
    assert e in kids && e in d.children;
    assert ReachAll([e], d, cfg.excluded) == 1 + Reach(e, cfg.excluded) by {
      assert [e][1..] == [];
    }
    BlockUnfold(d, cfg, level, prefix, i);
    if Descends(e, cfg.depth, level) {
      ListingCount(e, cfg, level + 1, prefix + Continuation(i, |kids|));
    }
  }

  // ---------------------------------------------------------------------
  // Lines of the text.
  // ---------------------------------------------------------------------

  /** No name in the tree, the root's included, holds a newline. */
  ghost predicate NamesSingleLine(e: Entry)
  {
    '\n' !in e.name && (e.Dir? ==> forall c :: c in e.children ==> NamesSingleLine(c))
  }

  /** The formatter never yields a newline. */
  ghost predicate FormatterSingleLine(cfg: Config)
  {
    forall n: nat :: '\n' !in cfg.formatSize(n)
  }

  lemma SuffixSingleLine(size: nat, cfg: Config)
    requires FormatterSingleLine(cfg)
    ensures '\n' !in SizeSuffix(size, cfg)
  {
  }

  lemma {:induction false} ListingSingleLine(d: Entry, cfg: Config, level: int, prefix: string)
    requires d.Dir? && NamesSingleLine(d) && FormatterSingleLine(cfg) && '\n' !in prefix
    ensures forall l :: l in Listing(d, cfg, level, prefix) ==> SingleLine(l)
    decreases d, 2, 0
  {
    BlocksSingleLine(d, cfg, level, prefix, |Kids(d, cfg)|);
  }

  lemma {:induction false} BlocksSingleLine(d: Entry, cfg: Config, level: int, prefix: string, n: nat)
    requires d.Dir? && n <= |Kids(d, cfg)|
    requires NamesSingleLine(d) && FormatterSingleLine(cfg) && '\n' !in prefix
    ensures forall l :: l in Blocks(d, cfg, level, prefix, n) ==> SingleLine(l)
    decreases d, 1, n
  {
    if n > 0 {
      BlocksSingleLine(d, cfg, level, prefix, n - 1);
      BlockSingleLine(d, cfg, level, prefix, n - 1);
      BlocksUnfold(d, cfg, level, prefix, n);
    }
  }

  lemma {:induction false} BlockSingleLine(d: Entry, cfg: Config, level: int, prefix: string, i: nat)
    requires d.Dir? && i < |Kids(d, cfg)|
    requires NamesSingleLine(d) && FormatterSingleLine(cfg) && '\n' !in prefix
    ensures forall l :: l in Block(d, cfg, level, prefix, i) ==> SingleLine(l)
    decreases d, 0, 0
  {
    var kids := Kids(d, cfg);
    var e := kids[i];
    assert e in kids && e in d.children;
    var line := Line(prefix, Glyph(i, |kids|), e.name, SizeSuffix(e.size, cfg));
    BlockUnfold(d, cfg, level, prefix, i);
    SuffixSingleLine(e.size, cfg);
    assert SingleLine(line);
    if Descends(e, cfg.depth, level) {
      var seg := Continuation(i, |kids|);
      assert '\n' !in prefix + seg;
      ListingSingleLine(e, cfg, level + 1, prefix + seg);
    } else {
      assert Block(d, cfg, level, prefix, i) == [line] + [];
    }
  }

  /** With unlimited depth, and with no newline inside a name or a formatted
      size, the rendered text has one newline-terminated line for the root
      plus one for every entry reachable through surviving entries. */
  lemma DocumentLineCount(root: Entry, cfg: Config)
    requires root.Dir? && cfg.depth == -1
    requires NamesSingleLine(root) && FormatterSingleLine(cfg)
    ensures Newlines(Join(Document(root, cfg))) == 1 + Reach(root, cfg.excluded)
  {
    ListingSingleLine(root, cfg, 0, "");
    SuffixSingleLine(root.size, cfg);
    assert SingleLine(RootLine(root, cfg));
    JoinNewlines(Document(root, cfg));
    ListingCount(root, cfg, 0, "");
  }
}
