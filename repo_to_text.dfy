/** The write loop of `main` in src/main.rs: walk the entries, write three
    lines per accepted regular file to the output file, then the tree block
    when the `tree` command could be run. */
module RepoToText {
  import opened Wrappers
  import opened PathFilter
  import opened Serializer

  /** The output file: everything written to it so far. */
  class OutputFile {
    var written: string

    /** `File::create`: a new, empty file. */
    constructor ()
      ensures written == ""
    {
      written := "";
    }

    /** `writeln!(output_file, "{}", line)`: the line and one newline. */
    method WriteLine(line: string)
      modifies this
      ensures written == old(written) + line + "\n"
    {
      written := written + line + "\n";
    }
  }

  /** The run after argument parsing: `pkg` is the package name (`""` when
      none is given), `entries` the walk in the order `WalkDir` yields it,
      `tree` the decoded standard output of `tree`, or `None` when the command
      could not be spawned. Returns what the output file holds at the end. */
  method Run(pkg: string, entries: seq<Entry>, tree: Option<string>) returns (text: string)
    ensures text == Snapshot(pkg, entries, tree)
  {
    var output := new OutputFile();
    for i := 0 to |entries|
      invariant output.written == FileBlocks(pkg, entries[..i])
    {
      var entry := entries[i];
      ghost var before := output.written;
      if IsIncluded(entry.path) {
        if entry.isFile {
          var path := PathText(entry.path);
          output.WriteLine("===== BEGIN " + pkg + "/" + path + " =====");
          output.WriteLine(entry.content);
          output.WriteLine("===== END " + pkg + "/" + path + " =====\n\n");
          WrittenBlock(before, FileBegin(pkg, path), entry.content, FileEnd(pkg, path), output.written);
        }
      }
      assert entries[..i + 1][..i] == entries[..i];
      assert output.written == before + (if Selected(entry) then FileBlock(pkg, entry) else "");
    }
    assert entries[..|entries|] == entries;
    ghost var files := output.written;
    match tree {
      case Some(stdout) =>
        output.WriteLine("===== BEGIN TREE =====");
        output.WriteLine(stdout);
        output.WriteLine("===== END TREE =====\n\n");
        WrittenBlock(files, TreeBegin, stdout, TreeEnd, output.written);
      case None =>
    }
    text := output.written;
  }

  /** Three lines written after `before` make one block. */
  lemma WrittenBlock(before: string, begin: string, body: string, end: string, after: string)
    requires after == before + begin + "\n" + body + "\n" + (end + "\n\n") + "\n"
    ensures after == before + Block(begin, body, end)
  {
  }
}
