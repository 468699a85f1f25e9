/** The filelists database packs the files of a directory into two strings: their names joined by '/', and
    one letter per file for its type (`package_files_to_hash` in src/sqlite.c). */
module PackedFiles {
  import opened Basics

  datatype File = File(path: string, name: Option<string>, kind: Option<string>)

  datatype Encoded = Encoded(files: string, types: string)

  /** What a reader of the database gets back for one file of a directory. */
  datatype Entry = Entry(name: string, kind: string)

  /** A file as the package lists it, with a missing name or type spelled out. */
  datatype Row = Row(path: string, entry: Entry)

  // ---------------------------------------------------------------- packing

  function NameToken(name: Option<string>): string {
    if name.None? || name.value == "" then "/" else name.value
  }

  function TypeToken(kind: Option<string>): string {
    if kind.None? || kind.value == "" || kind.value == "file" then "f"
    else if kind.value == "dir" then "d"
    else if kind.value == "ghost" then "g"
    else ""
  }

  /** The names joined by '/'. */
  function Join(files: seq<File>): string {
    if files == [] then ""
    else if |files| == 1 then NameToken(files[0].name)
    else NameToken(files[0].name) + "/" + Join(files[1..])
  }

  function Letters(files: seq<File>): string {
    if files == [] then "" else TypeToken(files[0].kind) + Letters(files[1..])
  }

  function OfDirectory(files: seq<File>, path: string): seq<File> {
    if files == [] then []
    else if files[|files| - 1].path == path then OfDirectory(files[..|files| - 1], path) + [files[|files| - 1]]
    else OfDirectory(files[..|files| - 1], path)
  }

  /** One entry per directory, holding the names and types of its files in order. */
  ghost predicate IsPacked(hash: map<string, Encoded>, files: seq<File>) {
    && (forall path :: path in hash <==> OfDirectory(files, path) != [])
    && (forall path :: path in hash ==>
         hash[path] == Encoded(Join(OfDirectory(files, path)), Letters(OfDirectory(files, path))))
  }

  method PackageFilesToHash(files: seq<File>) returns (hash: map<string, Encoded>)
    ensures IsPacked(hash, files)
  {
    hash := map[];
    for i := 0 to |files|
      invariant IsPacked(hash, files[..i])
    {
      var file := files[i];
      var enc := if file.path in hash then hash[file.path] else Encoded("", "");
      ghost var before := enc;
      if enc.files != "" {
        enc := enc.(files := enc.files + "/");
      }
      if file.name.None? || file.name.value == "" {
        enc := enc.(files := enc.files + "/");
      } else {
        enc := enc.(files := enc.files + file.name.value);
      }
      if file.kind.None? || file.kind.value == "" || file.kind.value == "file" {
        enc := enc.(types := enc.types + "f");
      } else if file.kind.value == "dir" {
        enc := enc.(types := enc.types + "d");
      } else if file.kind.value == "ghost" {
        enc := enc.(types := enc.types + "g");
      }
      assert enc.types == before.types + TypeToken(file.kind);
      assert enc.files == (if before.files == "" then "" else before.files + "/") + NameToken(file.name);
      assert files[..i + 1] == files[..i] + [file];
      PackOne(hash, files[..i], file, before, enc);
      hash := hash[file.path := enc];
    }
    assert files[..|files|] == files;
  }

  lemma PackOne(hash: map<string, Encoded>, files: seq<File>, file: File, before: Encoded, after: Encoded)
    requires IsPacked(hash, files)
    requires before == if file.path in hash then hash[file.path] else Encoded("", "")
    requires after.types == before.types + TypeToken(file.kind)
    requires after.files == (if before.files == "" then "" else before.files + "/") + NameToken(file.name)
    ensures IsPacked(hash[file.path := after], files + [file])
  {
    forall path
      ensures path in hash[file.path := after] <==> OfDirectory(files + [file], path) != []
      ensures path in hash[file.path := after] ==>
        hash[file.path := after][path]
          == Encoded(Join(OfDirectory(files + [file], path)), Letters(OfDirectory(files + [file], path)))
    {
      OfDirectoryAppend(files, file, path);
      if path == file.path {
        JoinAppend(OfDirectory(files, path), file);
        LettersAppend(OfDirectory(files, path), file);
      } else {
        assert OfDirectory(files, path) + [] == OfDirectory(files, path);
      }
    }
  }

  lemma {:induction false} JoinAppend(files: seq<File>, file: File)
    ensures Join(files + [file]) == (if files == [] then "" else Join(files) + "/") + NameToken(file.name)
    ensures Join(files) == "" <==> files == []
  {
    if files != [] {
      JoinAppend(files[1..], file);
      assert (files + [file])[1..] == files[1..] + [file];
      if |files| == 1 {
        assert files[1..] == [];
      }
    }
  }

  lemma {:induction false} LettersAppend(files: seq<File>, file: File)
    ensures Letters(files + [file]) == Letters(files) + TypeToken(file.kind)
  {
    if files != [] {
      LettersAppend(files[1..], file);
      assert (files + [file])[1..] == files[1..] + [file];
    }
  }

  // ---------------------------------------------------------------- unpacking

  /** The characters before the first '/'. */
  function Run(s: string): (n: nat)
    ensures n <= |s| && '/' !in s[..n] && (n < |s| ==> s[n] == '/')
  {
    if s == "" || s[0] == '/' then 0
    else
      var n := Run(s[1..]);
      assert s[..n + 1] == [s[0]] + s[1..][..n];
      n + 1
  }

  /** A '/' where a name should start stands for the empty name; otherwise the name ends at the next '/'. */
  function TokenLength(s: string): (n: nat)
    requires s != ""
    ensures 0 < n <= |s|
  {
    if s[0] == '/' then 1 else Run(s)
  }

  function TokenName(token: string): string {
    if token == "/" then "" else token
  }

  function LetterType(c: char): Option<string> {
    match c
    case 'f' => Some("file")
    case 'd' => Some("dir")
    case 'g' => Some("ghost")
    case _ => None
  }

  /** One name and one letter at a time; None when the two strings do not go together. */
  function Decode(files: string, types: string): Option<seq<Entry>>
    decreases |types|
  {
    if files == "" && types == "" then Some([])
    else if files == "" || types == "" || LetterType(types[0]).None? then None
    else
      var n := TokenLength(files);
      var entry := Entry(TokenName(files[..n]), LetterType(types[0]).value);
      if n == |files| then (if |types| == 1 then Some([entry]) else None)
      else if |types| == 1 then None
      else
        match Decode(files[n + 1..], types[1..])
        case None => None
        case Some(rest) => Some([entry] + rest)
  }

  /** A missing name reads as the empty one, a missing type as a plain file. */
  function Shown(file: File): Entry {
    Entry(
      if file.name.None? then "" else file.name.value,
      if file.kind.None? || file.kind.value == "" then "file" else file.kind.value)
  }

  function AllShown(files: seq<File>): seq<Entry> {
    if files == [] then [] else [Shown(files[0])] + AllShown(files[1..])
  }

  /** The name holds no '/', and the type is one of those that have a letter. */
  predicate Plain(file: File) {
    && '/' !in Shown(file).name
    && Shown(file).kind in {"file", "dir", "ghost"}
  }

  predicate AllPlain(files: seq<File>) {
    forall i :: 0 <= i < |files| ==> Plain(files[i])
  }

  // ---------------------------------------------------------------- round trip of one directory

  lemma {:induction false} RunStops(name: string, rest: string)
    requires '/' !in name && (rest == "" || rest[0] == '/')
    ensures Run(name + rest) == |name|
  {
    if name != "" {
      RunStops(name[1..], rest);
      assert (name + rest)[1..] == name[1..] + rest;
      assert name[0] in name;
    }
  }

  lemma TokenComesBack(file: File, rest: string)
    requires Plain(file) && (rest == "" || rest[0] == '/')
    ensures var token := NameToken(file.name);
      && TokenLength(token + rest) == |token|
      && (token + rest)[..|token|] == token
      && TokenName(token) == Shown(file).name
  {
    var token := NameToken(file.name);
    if token != "/" {
      RunStops(token, rest);
      assert (token + rest)[0] == token[0];
      assert token[0] in token;
    }
  }

  lemma JoinHead(files: seq<File>)
    requires files != [] && Plain(files[0])
    ensures Join(files) != ""
    ensures var n := TokenLength(Join(files));
      && TokenName(Join(files)[..n]) == Shown(files[0]).name
      && (n == |Join(files)| <==> files[1..] == [])
      && (n < |Join(files)| ==> Join(files)[n + 1..] == Join(files[1..]))
  {
    var token, rest := NameToken(files[0].name), files[1..];
    if rest == [] {
      TokenComesBack(files[0], "");
      assert token + "" == token == Join(files);
    } else {
      TokenComesBack(files[0], "/" + Join(rest));
      JoinSplits(files);
    }
  }

  lemma JoinSplits(files: seq<File>)
    requires |files| > 1
    ensures var token := NameToken(files[0].name);
      && Join(files) == token + ("/" + Join(files[1..]))
      && Join(files)[|token| + 1..] == Join(files[1..])
  {
  }

  lemma LettersHead(files: seq<File>)
    requires files != [] && Plain(files[0])
    ensures Letters(files) != ""
    ensures LetterType(Letters(files)[0]) == Some(Shown(files[0]).kind)
    ensures Letters(files)[1..] == Letters(files[1..])
  {
    var letter := TypeToken(files[0].kind);
    assert |letter| == 1;
    assert Letters(files)[1..] == Letters(files[1..]);
  }

  lemma {:induction false} PlainComesBack(files: seq<File>)
    requires AllPlain(files)
    ensures Decode(Join(files), Letters(files)) == Some(AllShown(files))
    ensures |Letters(files)| == |files|
  {
    if files != [] {
      var rest := files[1..];
      PlainComesBack(rest);
      JoinHead(files);
      LettersHead(files);
      assert |Letters(files)| == 1 + |Letters(rest)|;
      var n := TokenLength(Join(files));
      var entry := Entry(TokenName(Join(files)[..n]), LetterType(Letters(files)[0]).value);
      assert entry == Shown(files[0]);
      assert AllShown(files) == [entry] + AllShown(rest);
      if rest == [] {
        assert AllShown(files) == [entry];
      }
    }
  }

  lemma {:induction false} DecodedAreSlashFree(files: string, types: string)
    requires Decode(files, types).Some?
    ensures var list := Decode(files, types).value;
      && |list| == |types|
      && forall i :: 0 <= i < |list| ==> '/' !in list[i].name && list[i].kind in {"file", "dir", "ghost"}
    decreases |types|
  {
    if files != "" {
      var n := TokenLength(files);
      if n < |files| {
        DecodedAreSlashFree(files[n + 1..], types[1..]);
      }
    }
  }

  lemma {:induction false} AllShownElements(files: seq<File>)
    ensures |AllShown(files)| == |files|
    ensures forall i :: 0 <= i < |files| ==> AllShown(files)[i] == Shown(files[i])
  {
    if files != [] {
      AllShownElements(files[1..]);
    }
  }

  /** The packed strings of a directory decode to its files, in order, if and only if no name holds a '/' and
      every type has a letter. */
  lemma RoundTripIff(files: seq<File>)
    ensures Decode(Join(files), Letters(files)) == Some(AllShown(files)) <==> AllPlain(files)
  {
    if AllPlain(files) {
      PlainComesBack(files);
    }
    if Decode(Join(files), Letters(files)) == Some(AllShown(files)) {
      DecodedAreSlashFree(Join(files), Letters(files));
      AllShownElements(files);
      forall i | 0 <= i < |files|
        ensures Plain(files[i])
      {
        assert AllShown(files)[i] == Shown(files[i]);
      }
    }
  }

  // ---------------------------------------------------------------- the whole package

  function Rows(path: string, entries: seq<Entry>): seq<Row> {
    if entries == [] then [] else [Row(path, entries[0])] + Rows(path, entries[1..])
  }

  /** All rows of the database, the directories taken in the order `paths`; an undecodable one gives none. */
  function Unpack(hash: map<string, Encoded>, paths: seq<string>): seq<Row> {
    if paths == [] then []
    else
      var rows :=
        if paths[0] !in hash then []
        else
          match Decode(hash[paths[0]].files, hash[paths[0]].types)
          case None => []
          case Some(entries) => Rows(paths[0], entries);
      rows + Unpack(hash, paths[1..])
  }

  function RowOf(file: File): Row {
    Row(file.path, Shown(file))
  }

  /** The rows that the files stand for. */
  function RowsOf(files: seq<File>): seq<Row> {
    Mapped(files, RowOf)
  }

  /** `paths` lists the keys of the hash table, in whatever order the table is walked. */
  ghost predicate Walks(paths: seq<string>, hash: map<string, Encoded>) {
    && (forall i, j :: 0 <= i < j < |paths| ==> paths[i] != paths[j])
    && (forall path :: path in paths <==> path in hash)
  }

  /** The files of the directories in `paths`, directory by directory. */
  function Gathered(files: seq<File>, paths: seq<string>): seq<File> {
    if paths == [] then [] else OfDirectory(files, paths[0]) + Gathered(files, paths[1..])
  }

  lemma {:induction false} OfDirectoryMembers(files: seq<File>, path: string)
    ensures forall f :: f in OfDirectory(files, path) ==> f.path == path && f in files
  {
    if files != [] {
      OfDirectoryMembers(files[..|files| - 1], path);
    }
  }

  lemma OfDirectoryAppend(files: seq<File>, file: File, path: string)
    ensures OfDirectory(files + [file], path)
      == OfDirectory(files, path) + if file.path == path then [file] else []
  {
    assert (files + [file])[..|files|] == files;
  }

  lemma FirstOrLater(paths: seq<string>, path: string)
    requires paths != [] && forall i, j :: 0 <= i < j < |paths| ==> paths[i] != paths[j]
    ensures path in paths <==> path == paths[0] || path in paths[1..]
    ensures path == paths[0] ==> path !in paths[1..]
  {
  }

  /** Adding a file to the package adds it once, provided its directory is walked once. */
  lemma {:induction false} GatheredAppend(files: seq<File>, file: File, paths: seq<string>)
    requires forall i, j :: 0 <= i < j < |paths| ==> paths[i] != paths[j]
    ensures multiset(Gathered(files + [file], paths))
      == multiset(Gathered(files, paths)) + (if file.path in paths then multiset{file} else multiset{})
  {
    if paths != [] {
      GatheredAppend(files, file, paths[1..]);
      FirstOrLater(paths, file.path);
      GatheredFirst(files, paths);
      GatheredFirst(files + [file], paths);
      DirectoryAdds(files, file, paths[0]);
    }
  }

  lemma GatheredFirst(files: seq<File>, paths: seq<string>)
    requires paths != []
    ensures multiset(Gathered(files, paths))
      == multiset(OfDirectory(files, paths[0])) + multiset(Gathered(files, paths[1..]))
  {
  }

  lemma DirectoryAdds(files: seq<File>, file: File, path: string)
    ensures multiset(OfDirectory(files + [file], path))
      == multiset(OfDirectory(files, path)) + if file.path == path then multiset{file} else multiset{}
  {
    OfDirectoryAppend(files, file, path);
  }

  lemma {:induction false} GatheredNothing(paths: seq<string>)
    ensures Gathered([], paths) == []
  {
    if paths != [] {
      GatheredNothing(paths[1..]);
    }
  }

  lemma {:induction false} GatheredConserves(files: seq<File>, paths: seq<string>)
    requires forall i, j :: 0 <= i < j < |paths| ==> paths[i] != paths[j]
    requires forall f :: f in files ==> f.path in paths
    ensures multiset(Gathered(files, paths)) == multiset(files)
  {
    if files == [] {
      GatheredNothing(paths);
    } else {
      var init, last := files[..|files| - 1], files[|files| - 1];
      assert files == init + [last];
      GatheredConserves(init, paths);
      GatheredAppend(init, last, paths);
      assert last in files;
    }
  }

  lemma {:induction false} OfDirectoryCovers(files: seq<File>, f: File)
    requires f in files
    ensures OfDirectory(files, f.path) != []
  {
    var init, last := files[..|files| - 1], files[|files| - 1];
    if last.path != f.path {
      assert files == init + [last];
      OfDirectoryCovers(init, f);
    }
  }

  lemma {:induction false} RowsAreListed(path: string, files: seq<File>)
    requires forall f :: f in files ==> f.path == path
    ensures Rows(path, AllShown(files)) == RowsOf(files)
  {
    if files != [] {
      RowsAreListed(path, files[1..]);
      assert files[0] in files;
      assert RowsOf(files) == [Row(path, Shown(files[0]))] + RowsOf(files[1..]);
    }
  }

  lemma DirectoryComesBack(files: seq<File>, path: string)
    requires AllPlain(files)
    ensures var here := OfDirectory(files, path);
      && Decode(Join(here), Letters(here)) == Some(AllShown(here))
      && Rows(path, AllShown(here)) == RowsOf(here)
  {
    var here := OfDirectory(files, path);
    OfDirectoryMembers(files, path);
    assert AllPlain(here) by {
      assert forall i :: 0 <= i < |here| ==> here[i] in files;
    }
    PlainComesBack(here);
    RowsAreListed(path, here);
  }

  lemma RowsOfConcatenation(xs: seq<File>, ys: seq<File>)
    ensures RowsOf(xs + ys) == RowsOf(xs) + RowsOf(ys)
  {
  }

  lemma {:induction false} UnpackIsGathered(hash: map<string, Encoded>, files: seq<File>, paths: seq<string>)
    requires IsPacked(hash, files) && AllPlain(files)
    requires forall path :: path in paths ==> path in hash
    ensures Unpack(hash, paths) == RowsOf(Gathered(files, paths))
  {
    if paths != [] {
      UnpackIsGathered(hash, files, paths[1..]);
      var here := OfDirectory(files, paths[0]);
      assert paths[0] in paths;
      DirectoryComesBack(files, paths[0]);
      RowsOfConcatenation(here, Gathered(files, paths[1..]));
      assert hash[paths[0]] == Encoded(Join(here), Letters(here));
      assert Unpack(hash, paths) == RowsOf(here) + Unpack(hash, paths[1..]);
    }
  }

  predicate PlainRow(row: Row) {
    '/' !in row.entry.name && row.entry.kind in {"file", "dir", "ghost"}
  }

  lemma {:induction false} RowsArePlain(path: string, entries: seq<Entry>)
    requires forall i :: 0 <= i < |entries| ==> '/' !in entries[i].name && entries[i].kind in {"file", "dir", "ghost"}
    ensures forall row :: row in Rows(path, entries) ==> PlainRow(row)
  {
    if entries != [] {
      RowsArePlain(path, entries[1..]);
    }
  }

  lemma {:induction false} UnpackedArePlain(hash: map<string, Encoded>, paths: seq<string>)
    ensures forall row :: row in Unpack(hash, paths) ==> PlainRow(row)
  {
    if paths != [] {
      UnpackedArePlain(hash, paths[1..]);
      if paths[0] in hash && Decode(hash[paths[0]].files, hash[paths[0]].types).Some? {
        DecodedAreSlashFree(hash[paths[0]].files, hash[paths[0]].types);
        RowsArePlain(paths[0], Decode(hash[paths[0]].files, hash[paths[0]].types).value);
      }
    }
  }

  /** However the hash table is walked, it holds exactly the files of the package, each once, if and only if no
      name holds a '/' and every type has a letter. */
  lemma HashConservesFilesIff(hash: map<string, Encoded>, files: seq<File>, paths: seq<string>)
    requires IsPacked(hash, files) && Walks(paths, hash)
    ensures multiset(Unpack(hash, paths)) == multiset(RowsOf(files)) <==> AllPlain(files)
  {
    if AllPlain(files) {
      forall f | f in files
        ensures f.path in paths
      {
        OfDirectoryCovers(files, f);
      }
      GatheredConserves(files, paths);
      UnpackIsGathered(hash, files, paths);
      MappedFollows(Gathered(files, paths), files, RowOf);
    }
    if multiset(Unpack(hash, paths)) == multiset(RowsOf(files)) {
      UnpackedArePlain(hash, paths);
      forall i | 0 <= i < |files|
        ensures Plain(files[i])
      {
        assert RowsOf(files)[i] in multiset(Unpack(hash, paths));
        assert PlainRow(RowsOf(files)[i]);
      }
    }
  }

  // ---------------------------------------------------------------- directory names in the database

  /** The path without its trailing '/'s. */
  function Stripped(path: string): string {
    if path != "" && path[|path| - 1] == '/' then Stripped(path[..|path| - 1]) else path
  }

  /** What cr_db_write_file writes for a directory. */
  function DirName(path: string): string {
    if path == "" then "."
    else if |path| > 1 && path[|path| - 1] == '/' then DirName(path[..|path| - 1])
    else path
  }

  /** cr_db_write_file: the loop over the end of the key. */
  method TrimKey(key: string) returns (dir: string)
    ensures dir == DirName(key)
  {
    var keyLen: nat := |key|;
    assert key[..|key|] == key;
    while keyLen > 1 && key[keyLen - 1] == '/'
      invariant keyLen <= |key| && (key != "" ==> keyLen > 0)
      invariant DirName(key) == DirName(key[..keyLen])
    {
      assert key[..keyLen][..keyLen - 1] == key[..keyLen - 1];
      keyLen := keyLen - 1;
    }
    dir := if keyLen == 0 then "." else key[..keyLen];
    assert key != "" ==> DirName(key[..keyLen]) == key[..keyLen];
  }

  lemma {:induction false} DirNameIsStripped(path: string)
    ensures DirName(path) == if path == "" then "." else if Stripped(path) == "" then "/" else Stripped(path)
    ensures Stripped(path) == "" || Stripped(path)[|Stripped(path)| - 1] != '/'
  {
    if |path| > 1 && path[|path| - 1] == '/' {
      DirNameIsStripped(path[..|path| - 1]);
    } else if path == "/" {
      assert path[..0] == "";
    }
  }

  /** Two directories are written under one name if and only if they differ by trailing '/'s, or one is empty
      and the other is ".". */
  lemma DirNamesCollideIff(p: string, q: string)
    ensures DirName(p) == DirName(q) <==>
      if p == "" || q == "" then (p == "" || Stripped(p) == ".") && (q == "" || Stripped(q) == ".")
      else Stripped(p) == Stripped(q)
  {
    DirNameIsStripped(p);
    DirNameIsStripped(q);
  }

  function InDatabase(row: Row): Row {
    row.(path := DirName(row.path))
  }

  /** The rows of the filelists database, as a reader decodes them. */
  function Database(hash: map<string, Encoded>, paths: seq<string>): seq<Row> {
    Mapped(Unpack(hash, paths), InDatabase)
  }

  /** The database gives back exactly the files of the package, each once, under the names of their directories,
      if and only if no name holds a '/' and every type has a letter. */
  lemma DatabaseConservesFilesIff(hash: map<string, Encoded>, files: seq<File>, paths: seq<string>)
    requires IsPacked(hash, files) && Walks(paths, hash)
    ensures multiset(Database(hash, paths)) == multiset(Mapped(RowsOf(files), InDatabase)) <==> AllPlain(files)
  {
    if AllPlain(files) {
      HashConservesFilesIff(hash, files, paths);
      MappedFollows(Unpack(hash, paths), RowsOf(files), InDatabase);
    }
    if multiset(Database(hash, paths)) == multiset(Mapped(RowsOf(files), InDatabase)) {
      UnpackedArePlain(hash, paths);
      PlainInDatabase(Unpack(hash, paths), files);
    }
  }

  /** If all rows read back are plain, so are the files they are of. */
  lemma PlainInDatabase(rows: seq<Row>, files: seq<File>)
    requires forall row :: row in rows ==> PlainRow(row)
    requires multiset(Mapped(rows, InDatabase)) == multiset(Mapped(RowsOf(files), InDatabase))
    ensures AllPlain(files)
  {
    forall i | 0 <= i < |files|
      ensures Plain(files[i])
    {
      InBoth(Mapped(RowsOf(files), InDatabase), Mapped(rows, InDatabase), i);
      var k :| 0 <= k < |rows| && Mapped(rows, InDatabase)[k] == InDatabase(RowOf(files[i]));
      assert rows[k] in rows && rows[k].entry == Shown(files[i]);
    }
  }

  lemma InBoth(xs: seq<Row>, ys: seq<Row>, i: nat)
    requires multiset(xs) == multiset(ys) && i < |xs|
    ensures xs[i] in ys
  {
    assert xs[i] in multiset(xs);
  }

  // ---------------------------------------------------------------- inputs that fail

  lemma PackedPair(files: seq<File>)
    requires |files| == 2
    ensures Join(files) == NameToken(files[0].name) + "/" + NameToken(files[1].name)
    ensures Letters(files) == TypeToken(files[0].kind) + TypeToken(files[1].kind)
  {
    assert files[1..] == [files[1]] && files[1..][1..] == [];
    assert Letters(files[1..]) == TypeToken(files[1].kind) + "";
  }

  /** No reader can tell "a/b" and "c" from "a" and "b/c". */
  lemma SlashIsMistaken(path: string, kind: Option<string>, xs: seq<File>, ys: seq<File>)
    requires xs == [File(path, Some("a/b"), kind), File(path, Some("c"), kind)]
    requires ys == [File(path, Some("a"), kind), File(path, Some("b/c"), kind)]
    ensures Join(xs) == Join(ys) && Letters(xs) == Letters(ys) && AllShown(xs) != AllShown(ys)
  {
    PackedPair(xs);
    PackedPair(ys);
    AllShownElements(xs);
    AllShownElements(ys);
    assert AllShown(xs)[0] != AllShown(ys)[0];
  }

  /** Nor which of two files has a type without a letter. */
  lemma UnknownTypeIsMistaken(path: string, xs: seq<File>, ys: seq<File>)
    requires xs == [File(path, Some("a"), Some("link")), File(path, Some("b"), Some("file"))]
    requires ys == [File(path, Some("a"), Some("file")), File(path, Some("b"), Some("link"))]
    ensures Join(xs) == Join(ys) && Letters(xs) == Letters(ys) && AllShown(xs) != AllShown(ys)
  {
    PackedPair(xs);
    PackedPair(ys);
    AllShownElements(xs);
    AllShownElements(ys);
    assert AllShown(xs)[0] != AllShown(ys)[0];
  }

  // ---------------------------------------------------------------- what the columns look like

  /** A file "foo", another "bar" of no stated type, a directory "dir" and a ghost "g" are packed as "foo/bar/dir/g"
      and "ffdg". */
  lemma PackedColumns(path: string, files: seq<File>)
    requires files == [
      File(path, Some("foo"), Some("file")), File(path, Some("bar"), None),
      File(path, Some("dir"), Some("dir")), File(path, Some("g"), Some("ghost"))]
    ensures Join(files) == "foo/bar/dir/g" && Letters(files) == "ffdg"
  {
    assert files[1..] == [files[1], files[2], files[3]];
    assert files[1..][1..] == [files[2], files[3]];
    PackedPair(files[1..][1..]);
    assert Join(files[1..]) == "bar" + "/" + Join(files[1..][1..]);
    assert Letters(files[1..]) == "f" + Letters(files[1..][1..]);
    assert Letters(files) == "f" + Letters(files[1..]);
  }
}
