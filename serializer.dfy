/** The text that `main` of src/main.rs writes: one delimited block per
    accepted regular file, in walk order, then an optional block holding the
    output of `tree`. The blocks are stated here as values; the method that
    writes them line by line is `RepoToText.Run`. */
module Serializer {
  import opened Wrappers
  import opened Strings
  import opened PathFilter

  /** One entry of the walk that survived `filter_map(|e| e.ok())`: its path,
      whether `path.is_file()` holds, and the text `read_to_string` returns. */
  datatype Entry = Entry(path: OsPath, isFile: bool, content: string)

  /** What three `writeln!` calls emit for a begin line, a body and an end
      format string ending in two newlines of its own. */
  function Block(begin: string, body: string, end: string): string {
    begin + "\n" + body + "\n" + end + "\n\n" + "\n"
  }

  /** The header line of a file block, without its newline. */
  function FileBegin(pkg: string, path: string): string {
    "===== BEGIN " + pkg + "/" + path + " ====="
  }

  /** The footer line of a file block, without its newlines. */
  function FileEnd(pkg: string, path: string): string {
    "===== END " + pkg + "/" + path + " ====="
  }

  /** The block written for an accepted regular file. */
  function FileBlock(pkg: string, e: Entry): string {
    var path := PathText(e.path);
    Block(FileBegin(pkg, path), e.content, FileEnd(pkg, path))
  }

  const TreeBegin: string := "===== BEGIN TREE ====="
  const TreeEnd: string := "===== END TREE ====="

  /** The block written for the standard output of a `tree` run. */
  function TreeBlock(stdout: string): string {
    Block(TreeBegin, stdout, TreeEnd)
  }

  /** An entry gets a block when it passes `is_included` and is a regular file. */
  predicate Selected(e: Entry) {
    IsIncluded(e.path) && e.isFile
  }

  /** The file part of the output after the walk has produced `entries`. */
  function FileBlocks(pkg: string, entries: seq<Entry>): string {
    if entries == [] then ""
    else
      var last := entries[|entries| - 1];
      FileBlocks(pkg, entries[..|entries| - 1]) + (if Selected(last) then FileBlock(pkg, last) else "")
  }

  /** The tree part: nothing when the `tree` command could not be run. */
  function TreeSection(tree: Option<string>): string {
    match tree
    case None => ""
    case Some(stdout) => TreeBlock(stdout)
  }

  /** The whole output file. */
  function Snapshot(pkg: string, entries: seq<Entry>, tree: Option<string>): string {
    FileBlocks(pkg, entries) + TreeSection(tree)
  }

  // ---------------------------------------------------------------------
  // An independent reading of the output: select, then concatenate.

  /** The entries that get a block, in walk order. */
  function Selection(entries: seq<Entry>): seq<Entry> {
    if entries == [] then []
    else (if Selected(entries[0]) then [entries[0]] else []) + Selection(entries[1..])
  }

  /** The blocks of `es`, one after another. */
  function ConcatBlocks(pkg: string, es: seq<Entry>): string {
    if es == [] then "" else FileBlock(pkg, es[0]) + ConcatBlocks(pkg, es[1..])
  }

  /** An entry is in the selection exactly when it was walked and is selected. */
  lemma {:induction false} SelectionMembers(entries: seq<Entry>, e: Entry)
    ensures e in Selection(entries) <==> e in entries && Selected(e)
  {
    if entries != [] {
      SelectionMembers(entries[1..], e);
      assert entries == [entries[0]] + entries[1..];
    }
  }

  /** Selection keeps walk order: it distributes over concatenation. */
  lemma {:induction false} SelectionAppend(a: seq<Entry>, b: seq<Entry>)
    ensures Selection(a + b) == Selection(a) + Selection(b)
  {
    if a != [] {
      assert (a + b)[1..] == a[1..] + b;
      SelectionAppend(a[1..], b);
    } else {
      assert a + b == b;
    }
  }

  lemma {:induction false} ConcatBlocksAppend(pkg: string, a: seq<Entry>, b: seq<Entry>)
    ensures ConcatBlocks(pkg, a + b) == ConcatBlocks(pkg, a) + ConcatBlocks(pkg, b)
  {
    if a != [] {
      assert (a + b)[1..] == a[1..] + b;
      ConcatBlocksAppend(pkg, a[1..], b);
    } else {
      assert a + b == b;
    }
  }

  /** The file part is the blocks of the selected entries, in walk order. */
  lemma {:induction false} FileBlocksAreSelectionBlocks(pkg: string, entries: seq<Entry>)
    ensures FileBlocks(pkg, entries) == ConcatBlocks(pkg, Selection(entries))
  {
    if entries != [] {
      var init, last := entries[..|entries| - 1], entries[|entries| - 1];
      assert entries == init + [last];
      FileBlocksAreSelectionBlocks(pkg, init);
      SelectionAppend(init, [last]);
      assert [last][1..] == [];
      ConcatBlocksAppend(pkg, Selection(init), Selection([last]));
      if Selected(last) {
        assert Selection([last]) == [last];
        assert ConcatBlocks(pkg, [last]) == FileBlock(pkg, last);
      } else {
        assert Selection([last]) == [];
      }
    }
  }

  /** The whole output: one block per selected entry in walk order, and the
      tree block, when there is one, after all of them. */
  lemma SnapshotLayout(pkg: string, entries: seq<Entry>, tree: Option<string>)
    ensures Snapshot(pkg, entries, tree) == ConcatBlocks(pkg, Selection(entries)) + TreeSection(tree)
    ensures tree.None? ==> Snapshot(pkg, entries, tree) == ConcatBlocks(pkg, Selection(entries))
    ensures tree.Some? ==> EndsWith(Snapshot(pkg, entries, tree), TreeBlock(tree.value))
  {
    FileBlocksAreSelectionBlocks(pkg, entries);
  }

  /** The file part of a concatenated walk is the file parts one after another. */
  lemma {:induction false} FileBlocksAppend(pkg: string, a: seq<Entry>, b: seq<Entry>)
    ensures FileBlocks(pkg, a + b) == FileBlocks(pkg, a) + FileBlocks(pkg, b)
  {
    FileBlocksAreSelectionBlocks(pkg, a + b);
    FileBlocksAreSelectionBlocks(pkg, a);
    FileBlocksAreSelectionBlocks(pkg, b);
    SelectionAppend(a, b);
    ConcatBlocksAppend(pkg, Selection(a), Selection(b));
  }

  /** An entry that is rejected or is not a regular file leaves no trace,
      wherever it sits in the walk. */
  lemma SkippedEntryContributesNothing(pkg: string, before: seq<Entry>, e: Entry, after: seq<Entry>, tree: Option<string>)
    requires !Selected(e)
    ensures Snapshot(pkg, before + [e] + after, tree) == Snapshot(pkg, before + after, tree)
  {
    assert FileBlocks(pkg, before + [e] + after) == FileBlocks(pkg, before + after) by {
      FileBlocksAppend(pkg, before + [e], after);
      FileBlocksAppend(pkg, before, [e]);
      FileBlocksAppend(pkg, before, after);
      assert [e][..0] == [];
    }
  }

  // ---------------------------------------------------------------------
  // Reading a block back: the partner of `Block`.

  /** The body of `text` when it is a block with the given begin and end
      lines, `None` otherwise. The body is what lies between the newline that
      ends the begin line and the newline `writeln!` put before the end line. */
  function ParseBlock(text: string, begin: string, end: string): Option<string> {
    var head := begin + "\n";
    var tail := "\n" + end + "\n\n\n";
    if |head| + |tail| <= |text| && StartsWith(text, head) && EndsWith(text, tail) then
      Some(text[|head|..|text| - |tail|])
    else
      None
  }

  /** Parsing a block gives back its body unchanged, and a text parses to a
      body only when it is exactly the block of that body. */
  lemma BlockRoundTrip(begin: string, body: string, end: string, text: string)
    ensures ParseBlock(Block(begin, body, end), begin, end) == Some(body)
    ensures ParseBlock(text, begin, end) == Some(body) ==> text == Block(begin, body, end)
  {
    var head := begin + "\n";
    var tail := "\n" + end + "\n\n\n";
    var b := Block(begin, body, end);
    assert b == head + body + tail;
    assert b[..|head|] == head;
    assert b[|b| - |tail|..] == tail;
    assert b[|head|..|b| - |tail|] == body;
    if ParseBlock(text, begin, end) == Some(body) {
      assert text == text[..|head|] + text[|head|..|text| - |tail|] + text[|text| - |tail|..];
    }
  }

  /** The body of a file block, between its BEGIN and END markers, is the
      file's content byte for byte. */
  lemma FileBlockRoundTrip(pkg: string, e: Entry)
    ensures var path := PathText(e.path);
      ParseBlock(FileBlock(pkg, e), FileBegin(pkg, path), FileEnd(pkg, path)) == Some(e.content)
  {
    var path := PathText(e.path);
    BlockRoundTrip(FileBegin(pkg, path), e.content, FileEnd(pkg, path), FileBlock(pkg, e));
  }

  /** The body of the tree block is the tree text unchanged. */
  lemma TreeBlockRoundTrip(stdout: string)
    ensures ParseBlock(TreeBlock(stdout), TreeBegin, TreeEnd) == Some(stdout)
  {
    BlockRoundTrip(TreeBegin, stdout, TreeEnd, TreeBlock(stdout));
  }

  // ---------------------------------------------------------------------
  // The header line.

  /** The text before the first newline of `s` (all of `s` when it has none). */
  function FirstLine(s: string): string {
    if s == [] || s[0] == '\n' then [] else [s[0]] + FirstLine(s[1..])
  }

  lemma {:induction false} FirstLineOf(line: string, rest: string)
    requires '\n' !in line
    ensures FirstLine(line + "\n" + rest) == line
  {
    if line != [] {
      assert (line + "\n" + rest)[1..] == line[1..] + "\n" + rest;
      FirstLineOf(line[1..], rest);
    }
  }

  /** When neither the package name nor the path holds a newline, the first
      line of a file block is its header, `===== BEGIN <pkg>/<path> =====`;
      with no package name given the header reads `===== BEGIN /<path> =====`. */
  lemma FileBlockHeader(pkg: string, e: Entry)
    requires '\n' !in pkg && '\n' !in PathText(e.path)
    ensures FirstLine(FileBlock(pkg, e)) == "===== BEGIN " + pkg + "/" + PathText(e.path) + " ====="
    ensures pkg == "" ==> FirstLine(FileBlock(pkg, e)) == "===== BEGIN /" + PathText(e.path) + " ====="
  {
    var path := PathText(e.path);
    var begin := FileBegin(pkg, path);
    assert '\n' !in begin;
    FirstLineOf(begin, e.content + "\n" + FileEnd(pkg, path) + "\n\n" + "\n");
    assert FileBlock(pkg, e) == begin + "\n" + (e.content + "\n" + FileEnd(pkg, path) + "\n\n" + "\n");
  }

  /** A block for an accepted entry always names a valid UTF-8 path. */
  lemma SelectedPathIsText(e: Entry)
    requires Selected(e)
    ensures e.path.Some? && PathText(e.path) == e.path.value
  {
  }
}
