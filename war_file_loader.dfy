/** Loading the JARs bundled in a WAR archive: every file entry under
    `WEB-INF/lib/` whose name ends in `.jar` is handed to the JAR loader, and
    the loaded JARs come back sorted by file name, ignoring case. */
module WarFileLoaders {
  import opened Wrappers
  import opened JavaStrings
  import opened JarModel
  import opened JarSort

  /** An entry of the WAR's ZIP stream with the bytes that follow it. In a ZIP
      stream `isDirectory` holds exactly when the name ends in `/`; here the
      flag is free, so the properties below hold for a superset of the entries
      a stream can deliver. */
  datatype ZipEntry = ZipEntry(name: string, isDirectory: bool, data: seq<byte>)

  /** What reading the next entry of the stream yields: an entry, or an I/O error. */
  datatype ZipItem = Entry(entry: ZipEntry) | Unreadable

  /** The file passed to `load`: its absolute path, whether it is a regular file,
      and the entries its ZIP stream would deliver, in stream order. */
  datatype WarFile = WarFile(absolutePath: string, isFile: bool, items: seq<ZipItem>)

  /** The exceptions `load` throws. */
  datatype LoadError =
    | IllegalArgument(message: string)
    | FileNotFound(path: string)
    | IOFailure

  /** What the JAR loader does with a base file name and the JAR's bytes;
      `None` stands for an `IOException`. */
  type JarLoader = (string, seq<byte>) -> Option<JarFile>

  const LibPrefix := "WEB-INF/lib/"
  const ClassesPrefix := "WEB-INF/classes/"
  const JarSuffix := ".jar"

  /** The entries that are loaded as JARs. */
  predicate IsLibJar(e: ZipEntry) {
    !e.isDirectory && StartsWith(e.name, LibPrefix) && EndsWith(e.name, JarSuffix)
  }

  // ---------------------------------------------------------------------------
  // Specification

  /** The JARs collected from a prefix of the stream, or `None` once an I/O error occurred. */
  function Collect(loader: JarLoader, getFilename: string -> string, items: seq<ZipItem>): Option<seq<JarFile>>
  {
    if |items| == 0 then Some([])
    else Extend(loader, getFilename, Collect(loader, getFilename, items[..|items| - 1]), items[|items| - 1])
  }

  /** One turn of the entry loop: what reading `item` does to the JARs collected so far. */
  function Extend(loader: JarLoader, getFilename: string -> string, collected: Option<seq<JarFile>>, item: ZipItem): Option<seq<JarFile>>
  {
    match collected
    case None => None
    case Some(jarFiles) =>
      match item
      case Unreadable => None
      case Entry(e) =>
        if !IsLibJar(e) then Some(jarFiles)
        else
          match loader(getFilename(e.name), e.data)
          case None => None
          case Some(jarFile) => Some(jarFiles + [jarFile])
  }

  lemma CollectStep(loader: JarLoader, getFilename: string -> string, items: seq<ZipItem>, i: nat)
    requires i < |items|
    ensures Collect(loader, getFilename, items[..i + 1]) ==
      Extend(loader, getFilename, Collect(loader, getFilename, items[..i]), items[i])
  {
    assert items[..i + 1][..i] == items[..i];
  }

  /** The entries of the stream that qualify as bundled JARs, in stream order. */
  function LibJars(items: seq<ZipItem>): (r: seq<ZipEntry>)
    ensures forall k :: 0 <= k < |r| ==> IsLibJar(r[k])
  {
    if |items| == 0 then []
    else
      LibJars(items[..|items| - 1]) +
        (match items[|items| - 1] case Entry(e) => if IsLibJar(e) then [e] else [] case Unreadable => [])
  }

  /** No error occurs while reading the stream. */
  predicate Readable(items: seq<ZipItem>) {
    forall i :: 0 <= i < |items| ==> items[i].Entry?
  }

  predicate AllLoad(loader: JarLoader, getFilename: string -> string, entries: seq<ZipEntry>) {
    forall k :: 0 <= k < |entries| ==> loader(getFilename(entries[k].name), entries[k].data).Some?
  }

  /** The JAR loaded from each entry, position by position. */
  function LoadAll(loader: JarLoader, getFilename: string -> string, entries: seq<ZipEntry>): (r: seq<JarFile>)
    requires AllLoad(loader, getFilename, entries)
    ensures |r| == |entries|
    ensures forall k :: 0 <= k < |r| ==> Some(r[k]) == loader(getFilename(entries[k].name), entries[k].data)
  {
    if |entries| == 0 then []
    else
      var last := entries[|entries| - 1];
      LoadAll(loader, getFilename, entries[..|entries| - 1]) + [loader(getFilename(last.name), last.data).value]
  }

  // ---------------------------------------------------------------------------
  // The loader

  class WarFileLoader {
    const jarFileLoader: JarLoader

    constructor (jarFileLoader: JarLoader)
      ensures this.jarFileLoader == jarFileLoader
    {
      this.jarFileLoader := jarFileLoader;
    }

    /** `load(file)`: the argument checks, the entry loop and the final sort.
        `getFilename` is `FileUtils.getFilename`. */
    method Load(getFilename: string -> string, file: Option<WarFile>) returns (r: Result<seq<JarFile>, LoadError>)
      ensures file.None? ==> r == Failure(IllegalArgument("file"))
      ensures file.Some? && !file.value.isFile ==> r == Failure(FileNotFound(file.value.absolutePath))
      ensures file.Some? && file.value.isFile ==>
        match Collect(jarFileLoader, getFilename, file.value.items)
        case None => r == Failure(IOFailure)
        case Some(jarFiles) =>
          && r == Success(SortByName(jarFiles))
          && SortedByName(r.value)
          && multiset(r.value) == multiset(jarFiles)
          && SameKeyOrder(r.value, jarFiles)
    {
      if file.None? {
        return Failure(IllegalArgument("file"));
      }
      var war := file.value;
      if !war.isFile {
        return Failure(FileNotFound(war.absolutePath));
      }
      var items := war.items;
      var jarFiles: seq<JarFile> := [];
      var i := 0;
      while i < |items|
        invariant 0 <= i <= |items|
        invariant Collect(jarFileLoader, getFilename, items[..i]) == Some(jarFiles)
      {
        CollectStep(jarFileLoader, getFilename, items, i);
        var item := items[i];
        match item {
          case Unreadable =>
            CollectFailureSticks(jarFileLoader, getFilename, items, i + 1);
            return Failure(IOFailure);
          case Entry(entry) =>
            // directories are skipped
            if !entry.isDirectory {
              var entryName := entry.name;
              if StartsWith(entryName, LibPrefix) && EndsWith(entryName, JarSuffix) {
                var fileName := getFilename(entryName);
                var fileData := entry.data;
                var jarFile := jarFileLoader(fileName, fileData);
                if jarFile.None? {
                  CollectFailureSticks(jarFileLoader, getFilename, items, i + 1);
                  return Failure(IOFailure);
                }
                jarFiles := jarFiles + [jarFile.value];
              } else if StartsWith(entryName, ClassesPrefix) {
                // classes and resources of the web application are not loaded
              }
            }
        }
        i := i + 1;
      }
      assert items[..|items|] == items;
      var a := new JarFile[|jarFiles|](k requires 0 <= k < |jarFiles| => jarFiles[k]);
      assert a[..] == jarFiles;
      SortInPlace(a);
      SortByNameSorted(jarFiles);
      SortByNamePermutation(jarFiles);
      SortByNameStableAll(jarFiles);
      r := Success(a[..]);
    }
  }

  // ---------------------------------------------------------------------------
  // Properties

  /** Once an I/O error occurred, the rest of the stream does not matter. */
  lemma {:induction false} CollectFailureSticks(loader: JarLoader, getFilename: string -> string, items: seq<ZipItem>, k: nat)
    requires k <= |items|
    requires Collect(loader, getFilename, items[..k]) == None
    ensures Collect(loader, getFilename, items) == None
    decreases |items| - k
  {
    if k == |items| {
      assert items[..k] == items;
    } else {
      assert items[..k + 1][..k] == items[..k];
      CollectFailureSticks(loader, getFilename, items, k + 1);
    }
  }

  /** The loop's result described without the loop: it succeeds exactly when the
      stream reads without error and every bundled JAR loads, and then it holds
      the loaded JARs of the qualifying entries, one each, in stream order. */
  lemma {:induction false} CollectSpec(loader: JarLoader, getFilename: string -> string, items: seq<ZipItem>)
    ensures Collect(loader, getFilename, items).Some? <==>
      Readable(items) && AllLoad(loader, getFilename, LibJars(items))
    ensures Collect(loader, getFilename, items).Some? ==>
      Collect(loader, getFilename, items).value == LoadAll(loader, getFilename, LibJars(items))
  {
    if |items| > 0 {
      var init, last := items[..|items| - 1], items[|items| - 1];
      assert items == init + [last];
      CollectSpec(loader, getFilename, init);
      ReadableSnoc(init, last);
      var es := LibJars(init);
      if last.Entry? && IsLibJar(last.entry) {
        assert LibJars(items) == es + [last.entry];
        AllLoadSnoc(loader, getFilename, es, last.entry);
        if AllLoad(loader, getFilename, es + [last.entry]) {
          LoadAllSnoc(loader, getFilename, es, last.entry);
        }
      } else {
        assert LibJars(items) == es + [] == es;
      }
    }
  }

  lemma ReadableSnoc(init: seq<ZipItem>, last: ZipItem)
    ensures Readable(init + [last]) <==> Readable(init) && last.Entry?
  {
    if Readable(init + [last]) {
      assert forall i :: 0 <= i < |init| ==> (init + [last])[i] == init[i];
      assert (init + [last])[|init|] == last;
    }
  }

  lemma AllLoadSnoc(loader: JarLoader, getFilename: string -> string, es: seq<ZipEntry>, e: ZipEntry)
    ensures AllLoad(loader, getFilename, es + [e]) <==>
      AllLoad(loader, getFilename, es) && loader(getFilename(e.name), e.data).Some?
  {
    if AllLoad(loader, getFilename, es + [e]) {
      assert forall k :: 0 <= k < |es| ==> (es + [e])[k] == es[k];
      assert (es + [e])[|es|] == e;
    }
  }

  lemma LoadAllSnoc(loader: JarLoader, getFilename: string -> string, es: seq<ZipEntry>, e: ZipEntry)
    requires AllLoad(loader, getFilename, es + [e])
    ensures AllLoad(loader, getFilename, es) && loader(getFilename(e.name), e.data).Some?
    ensures LoadAll(loader, getFilename, es + [e]) ==
      LoadAll(loader, getFilename, es) + [loader(getFilename(e.name), e.data).value]
  {
    AllLoadSnoc(loader, getFilename, es, e);
    assert (es + [e])[..|es|] == es;
  }

  /** The qualifying entries of a stream split at any point are those of the two parts. */
  lemma {:induction false} LibJarsConcat(a: seq<ZipItem>, b: seq<ZipItem>)
    ensures LibJars(a + b) == LibJars(a) + LibJars(b)
  {
    if |b| > 0 {
      var bi, bl := b[..|b| - 1], b[|b| - 1];
      assert a + b == (a + bi) + [bl];
      assert (a + b)[..|a + b| - 1] == a + bi;
      LibJarsConcat(a, bi);
    } else {
      assert a + b == a;
    }
  }

  /** Each qualifying entry contributes once for each time it occurs in the
      stream; no other entry contributes. */
  lemma {:induction false} LibJarsCount(items: seq<ZipItem>, e: ZipEntry)
    ensures multiset(LibJars(items))[e] == if IsLibJar(e) then multiset(items)[Entry(e)] else 0
  {
    if |items| > 0 {
      var init, last := items[..|items| - 1], items[|items| - 1];
      LibJarsCount(init, e);
      assert items == init + [last];
      assert multiset(items) == multiset(init) + multiset{last};
      var piece := LibJars(items)[|LibJars(init)|..];
      assert LibJars(items) == LibJars(init) + piece;
      assert multiset(LibJars(items)) == multiset(LibJars(init)) + multiset(piece);
    }
  }

  /** Directory entries add nothing, whatever their name. */
  lemma DirectoriesIgnored(loader: JarLoader, getFilename: string -> string, items: seq<ZipItem>, e: ZipEntry)
    requires e.isDirectory
    ensures Collect(loader, getFilename, items + [Entry(e)]) == Collect(loader, getFilename, items)
  {
    assert (items + [Entry(e)])[..|items|] == items;
  }

  /** Entries under `WEB-INF/classes/` add nothing. */
  lemma ClassesIgnored(loader: JarLoader, getFilename: string -> string, items: seq<ZipItem>, e: ZipEntry)
    requires StartsWith(e.name, ClassesPrefix)
    ensures !IsLibJar(e)
    ensures Collect(loader, getFilename, items + [Entry(e)]) == Collect(loader, getFilename, items)
  {
    assert (items + [Entry(e)])[..|items|] == items;
    assert e.name[..|LibPrefix|][8] == e.name[8] == ClassesPrefix[8];
  }

  /** A qualifying entry adds exactly the JAR loaded from its base name and bytes. */
  lemma LibJarAdded(loader: JarLoader, getFilename: string -> string, items: seq<ZipItem>, e: ZipEntry)
    requires IsLibJar(e)
    requires Collect(loader, getFilename, items).Some?
    ensures Collect(loader, getFilename, items + [Entry(e)]) ==
      match loader(getFilename(e.name), e.data)
      case None => None
      case Some(jarFile) => Some(Collect(loader, getFilename, items).value + [jarFile])
  {
    assert (items + [Entry(e)])[..|items|] == items;
  }

  /** JARs in subdirectories of `WEB-INF/lib/` qualify too. */
  lemma NestedLibJarQualifies(data: seq<byte>)
    ensures IsLibJar(ZipEntry("WEB-INF/lib/x/y.jar", false, data))
  {
    var name := "WEB-INF/lib/x/y.jar";
    assert name[..|LibPrefix|] == LibPrefix;
    assert name[|name| - |JarSuffix|..] == JarSuffix;
  }

  /** A stream that reads without error and has no qualifying entry yields no JARs. */
  lemma NoLibJarsNoJars(loader: JarLoader, getFilename: string -> string, items: seq<ZipItem>)
    requires forall i :: 0 <= i < |items| ==> items[i].Entry? && !IsLibJar(items[i].entry)
    ensures Collect(loader, getFilename, items) == Some([])
  {
    NoLibJarsEmpty(items);
    CollectSpec(loader, getFilename, items);
  }

  lemma {:induction false} NoLibJarsEmpty(items: seq<ZipItem>)
    requires forall i :: 0 <= i < |items| ==> items[i].Entry? && !IsLibJar(items[i].entry)
    ensures LibJars(items) == []
  {
    if |items| > 0 {
      var init := items[..|items| - 1];
      assert forall i :: 0 <= i < |init| ==> init[i] == items[i];
      NoLibJarsEmpty(init);
    }
  }
}
