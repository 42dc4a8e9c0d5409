/**
 * The renderer as the program runs it: a loop over the surviving children
 * of a directory that appends each child's line, and its subtree when it
 * descends, to an accumulated string; and the entry point that checks the
 * root and prepends the root line.
 */
module Generate {
  import opened Entries
  import opened Lines
  import opened Render

  /** Why a tree could not be produced. */
  datatype TreeError = NotADirectory

  datatype Result = Ok(tree: string) | Err(error: TreeError)

  /** Renders the contents of directory `dir`, listed at recursion level
      `currentDepth` below indentation `parentPrefix`. */
  method GenerateTree(dir: Entry, cfg: Config, currentDepth: int, parentPrefix: string) returns (tree: string)
    requires dir.Dir?
    ensures tree == Join(Listing(dir, cfg, currentDepth, parentPrefix))
    decreases dir
  {
    var filteredContents := Visible(dir.children, cfg.excluded);
    tree := "";
    for i := 0 to |filteredContents|
      invariant tree == Join(Blocks(dir, cfg, currentDepth, parentPrefix, i))
    {
      var item := filteredContents[i];
      assert item in dir.children;
      var isLast := i == |filteredContents| - 1;
      var itemPrefix := if isLast then Corner else Tee;
      var nextPrefix := if isLast then Blank else Pipe;

      var sizeString := "";
      if cfg.showSize {
        sizeString := " (" + cfg.formatSize(item.size) + ")";
      }

      var text := parentPrefix + itemPrefix + item.name + sizeString + "\n";
      assert text == Text(Line(parentPrefix, itemPrefix, item.name, sizeString));
      BlockText(dir, cfg, currentDepth, parentPrefix, i);
      if item.Dir? && (currentDepth < cfg.depth - 1 || cfg.depth == -1) {
        var subTree := GenerateTree(item, cfg, currentDepth + 1, parentPrefix + nextPrefix);
        tree := tree + (text + subTree);
      } else {
        assert text + "" == text;
        tree := tree + text;
      }
    }
  }

  /** The text that the first `i + 1` children of `dir` contribute: that of
      the first `i`, then the line of child `i`, then its subtree when the
      renderer descends into it. */
  lemma BlockText(dir: Entry, cfg: Config, level: int, prefix: string, i: nat)
    requires dir.Dir? && i < |Kids(dir, cfg)|
    ensures var kids := Kids(dir, cfg);
            var e := kids[i];
            Join(Blocks(dir, cfg, level, prefix, i + 1)) ==
              Join(Blocks(dir, cfg, level, prefix, i))
              + (Text(Line(prefix, Glyph(i, |kids|), e.name, SizeSuffix(e.size, cfg)))
                 + (if Descends(e, cfg.depth, level)
                    then Join(Listing(e, cfg, level + 1, prefix + Continuation(i, |kids|)))
                    else ""))
  {
    var kids := Kids(dir, cfg);
    var e := kids[i];
    var line := Line(prefix, Glyph(i, |kids|), e.name, SizeSuffix(e.size, cfg));
    var sub := if Descends(e, cfg.depth, level)
               then Listing(e, cfg, level + 1, prefix + Continuation(i, |kids|))
               else [];
    var pre := Blocks(dir, cfg, level, prefix, i);
    assert Block(dir, cfg, level, prefix, i) == [line] + sub;
    assert Blocks(dir, cfg, level, prefix, i + 1) == pre + ([line] + sub);
    var t := Text(line);
    var js := if Descends(e, cfg.depth, level)
              then Join(Listing(e, cfg, level + 1, prefix + Continuation(i, |kids|)))
              else "";
    assert Join(sub) == js;
    assert Join([line] + sub) == t + js by {
      JoinAppend([line], sub);
      assert Join([line]) == t by {
        assert [line][1..] == [];
      }
    }
    assert Join(pre + ([line] + sub)) == Join(pre) + (t + js) by {
      JoinAppend(pre, [line] + sub);
    }
  }

  /** The whole text for `root`: fails when the root is not a directory, and
      otherwise is the root's name and size suffix on a line of their own,
      followed by the rendering of its contents from level 0. */
  method FetchTree(root: Entry, cfg: Config) returns (r: Result)
    ensures r.Ok? <==> root.Dir?
    ensures !root.Dir? ==> r == Err(NotADirectory)
    ensures r.Ok? ==> r.tree == root.name + SizeSuffix(root.size, cfg) + "\n" + Join(Listing(root, cfg, 0, ""))
    ensures r.Ok? ==> r.tree == Join(Document(root, cfg))
  {
    if !root.Dir? {
      return Err(NotADirectory);
    }
    var rootSizeString := "";
    if cfg.showSize {
      rootSizeString := " (" + cfg.formatSize(root.size) + ")";
    }
    var generated := GenerateTree(root, cfg, 0, "");
    JoinAppend([RootLine(root, cfg)], Listing(root, cfg, 0, ""));
    r := Ok(root.name + rootSizeString + "\n" + generated);
  }

  /** A root `project` holding `src/main.go` and `README.md`, rendered with
      unlimited depth, no exclusions and no sizes: the root line, then `src`
      with a tee, `main.go` below it with a pipe and a corner, then
      `README.md` with a corner. */
  lemma ProjectExample()
    ensures var root := Dir("project", 96, [Dir("src", 64, [File("main.go", 120)]), File("README.md", 40)]);
            var cfg := Config(-1, {}, false, (n: nat) => "");
            Document(root, cfg) == [
              Line("", "", "project", ""),
              Line("", Tee, "src", ""),
              Line(Pipe, Corner, "main.go", ""),
              Line("", Corner, "README.md", "")]
  {
    var src := Dir("src", 64, [File("main.go", 120)]);
    var readme := File("README.md", 40);
    var root := Dir("project", 96, [src, readme]);
    var cfg := Config(-1, {}, false, (n: nat) => "");
    ExampleDocument(root, src, readme, cfg);
  }

  lemma ExampleDocument(root: Entry, src: Entry, readme: Entry, cfg: Config)
    requires src == Dir("src", 64, [File("main.go", 120)]) && readme == File("README.md", 40)
    requires root == Dir("project", 96, [src, readme])
    requires cfg.depth == -1 && cfg.excluded == {} && !cfg.showSize
    ensures Document(root, cfg) == [
              Line("", "", "project", ""),
              Line("", Tee, "src", ""),
              Line(Pipe, Corner, "main.go", ""),
              Line("", Corner, "README.md", "")]
  {
    ExampleListing(root, src, readme, cfg);
    assert Document(root, cfg) == [RootLine(root, cfg)] + Listing(root, cfg, 0, "");
  }

  lemma ExampleListing(root: Entry, src: Entry, readme: Entry, cfg: Config)
    requires src == Dir("src", 64, [File("main.go", 120)]) && readme == File("README.md", 40)
    requires root == Dir("project", 96, [src, readme])
    requires cfg.depth == -1 && cfg.excluded == {} && !cfg.showSize
    ensures Listing(root, cfg, 0, "") == [
              Line("", Tee, "src", ""),
              Line(Pipe, Corner, "main.go", ""),
              Line("", Corner, "README.md", "")]
  {
    ExampleKids(root, src, readme, cfg);
    ExampleBlocks(root, src, readme, cfg);
    assert Blocks(root, cfg, 0, "", 0) == [];
    var b1 := Blocks(root, cfg, 0, "", 1);
    assert b1 == Blocks(root, cfg, 0, "", 0) + Block(root, cfg, 0, "", 0);
    assert Blocks(root, cfg, 0, "", 2) == b1 + Block(root, cfg, 0, "", 1);
  }

  lemma ExampleBlocks(root: Entry, src: Entry, readme: Entry, cfg: Config)
    requires src == Dir("src", 64, [File("main.go", 120)]) && readme == File("README.md", 40)
    requires root == Dir("project", 96, [src, readme]) && Kids(root, cfg) == [src, readme]
    requires cfg.depth == -1 && cfg.excluded == {} && !cfg.showSize
    ensures Block(root, cfg, 0, "", 0) == [Line("", Tee, "src", ""), Line(Pipe, Corner, "main.go", "")]
    ensures Block(root, cfg, 0, "", 1) == [Line("", Corner, "README.md", "")]
  {
    ExampleSrc(src, cfg);
    assert "" + Pipe == Pipe;
  }

  lemma ExampleKids(root: Entry, src: Entry, readme: Entry, cfg: Config)
    requires src == Dir("src", 64, [File("main.go", 120)]) && readme == File("README.md", 40)
    requires root == Dir("project", 96, [src, readme]) && cfg.excluded == {}
    ensures Kids(root, cfg) == [src, readme]
  {
    assert Shown(src, {}) && Shown(readme, {});
    assert [src, readme][1..] == [readme];
    assert [readme][1..] == [];
  }

  lemma ExampleSrc(src: Entry, cfg: Config)
    requires src == Dir("src", 64, [File("main.go", 120)])
    requires cfg.depth == -1 && cfg.excluded == {} && !cfg.showSize
    ensures Listing(src, cfg, 1, Pipe) == [Line(Pipe, Corner, "main.go", "")]
  {
    var main := File("main.go", 120);
    assert Shown(main, {});
    assert Kids(src, cfg) == [main] by {
      assert [main][1..] == [];
    }
    assert Blocks(src, cfg, 1, Pipe, 1) == [] + Block(src, cfg, 1, Pipe, 0);
  }
}
