/**
 * The directory tree as the renderer sees it, and the filter it applies to
 * every listing before drawing anything.
 *
 * A directory listing (`fs.readdir` with file types) is replaced by the
 * children stored in a `Dir` entry, in the order the listing yields them.
 * Every entry carries its own stat size: for a directory that is the size of
 * the directory itself, never the sum of what it contains.
 */
module Entries {

  /** One filesystem entry, as a directory or not. A listed child is a `Dir`
      when its directory-listing entry reports a directory; that report does
      not follow symbolic links, so a link to a directory is a `File` and is
      never descended into. The root is a `Dir` when `stat`, which does follow
      links, reports a directory. Every `size` is a `stat` size, so a link's
      size is that of its target. */
  datatype Entry =
    | File(name: string, size: nat)
    | Dir(name: string, size: nat, children: seq<Entry>)

  /** The traversal configuration threaded unchanged through the recursion.
      `depth` is the maximum depth (-1 for unlimited), `excluded` the base
      names to skip at every level, `showSize` whether sizes are drawn, and
      `formatSize` the byte-count formatter of the helper module, which is
      not part of this model and is supplied by the caller. */
  datatype Config = Config(depth: int, excluded: set<string>, showSize: bool, formatSize: nat -> string)

  /** A hidden name starts with a dot. */
  predicate Hidden(name: string)
  {
    |name| > 0 && name[0] == '.'
  }

  /** Whether an entry survives the filter of a listing. */
  predicate Shown(e: Entry, excluded: set<string>)
  {
    !Hidden(e.name) && e.name !in excluded
  }

  /** The children that survive the filter, in listing order. */
  function Visible(s: seq<Entry>, excluded: set<string>): (r: seq<Entry>)
    ensures |r| <= |s|
    ensures forall e :: e in r <==> e in s && Shown(e, excluded)
  {
    if s == [] then []
    else if Shown(s[0], excluded) then [s[0]] + Visible(s[1..], excluded)
    else Visible(s[1..], excluded)
  }

  /** The filter keeps the listing order: filtering a concatenation is the
      concatenation of the filtered parts. */
  lemma {:induction false} VisibleAppend(a: seq<Entry>, b: seq<Entry>, excluded: set<string>)
    ensures Visible(a + b, excluded) == Visible(a, excluded) + Visible(b, excluded)
  {
    if a == [] {
      assert a + b == b;
    } else {
      assert (a + b)[0] == a[0];
      assert (a + b)[1..] == a[1..] + b;
      VisibleAppend(a[1..], b, excluded);
    }
  }

  /** The tree with every hidden or excluded entry removed at every level,
      together with everything below it. */
  function Prune(e: Entry, excluded: set<string>): (r: Entry)
    ensures r.name == e.name && r.size == e.size && r.Dir? == e.Dir?
    decreases e, 1, 0
  {
    match e
    case File(_, _) => e
    case Dir(name, size, children) => var vis := Visible(children, excluded);
      assert forall i :: 0 <= i < |vis| ==> vis[i] in children;
      Dir(name, size, PruneAll(vis, e, excluded))
  }

  /** `Prune` applied to each entry of `s`, whose entries all lie below `parent`. */
  function PruneAll(s: seq<Entry>, ghost parent: Entry, excluded: set<string>): (r: seq<Entry>)
    requires forall i :: 0 <= i < |s| ==> s[i] < parent
    ensures |r| == |s|
    decreases parent, 0, |s|
  {
    if s == [] then []
    else
      [Prune(s[0], excluded)] + PruneAll(s[1..], parent, excluded)
  }

  lemma {:induction false} PruneAllAt(s: seq<Entry>, parent: Entry, excluded: set<string>, i: nat)
    requires forall j :: 0 <= j < |s| ==> s[j] < parent
    requires i < |s|
    ensures PruneAll(s, parent, excluded)[i] == Prune(s[i], excluded)
  {
    if i > 0 {
      PruneAllAt(s[1..], parent, excluded, i - 1);
    }
  }

  /** A pruned tree holds only shown entries below its root. */
  ghost predicate AllShown(e: Entry, excluded: set<string>)
  {
    e.Dir? ==> forall c :: c in e.children ==> Shown(c, excluded) && AllShown(c, excluded)
  }

  lemma {:induction false} PruneAllShown(e: Entry, excluded: set<string>)
    ensures AllShown(Prune(e, excluded), excluded)
  {
    if e.Dir? {
      var vis := Visible(e.children, excluded);
      var kids := Prune(e, excluded).children;
      forall c | c in kids
        ensures Shown(c, excluded) && AllShown(c, excluded)
      {
        var i :| 0 <= i < |kids| && kids[i] == c;
        assert vis[i] in vis;
        assert forall j :: 0 <= j < |vis| ==> vis[j] in e.children;
        PruneAllAt(vis, e, excluded, i);
        PruneAllShown(vis[i], excluded);
      }
    }
  }

  /** The number of entries below `d` reached by unrestricted descent that
      survive the filter at every level. */
  function Reach(d: Entry, excluded: set<string>): nat
    decreases d, 1, 0
  {
    match d
    case File(_, _) => 0
    case Dir(_, _, children) => ReachAll(children, d, excluded)
  }

  /** `Reach` summed over the entries of `s` that survive the filter, each
      counting itself too; the entries of `s` all lie below `parent`. */
  function ReachAll(s: seq<Entry>, ghost parent: Entry, excluded: set<string>): nat
    requires forall c :: c in s ==> c < parent
    decreases parent, 0, |s|
  {
    if s == [] then 0
    else
      assert s[0] in s && forall c :: c in s[1..] ==> c in s;
      (if Shown(s[0], excluded) then 1 + Reach(s[0], excluded) else 0) + ReachAll(s[1..], parent, excluded)
  }
}
