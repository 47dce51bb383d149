/** A classpath: the JAR files found on it, in order, indexed by file name and
    by class name. */
module Classpaths {
  import opened Wrappers
  import opened JavaStrings
  import opened JarModel

  // ---------------------------------------------------------------------------
  // The file-name index

  /** `jarFilesMap` after every JAR has been put under its file name in list
      order: a later JAR replaces an earlier one of the same name. */
  function FileNameIndex(jarFiles: seq<JarFile>): map<string, JarFile> {
    if |jarFiles| == 0 then map[]
    else
      var last := jarFiles[|jarFiles| - 1];
      FileNameIndex(jarFiles[..|jarFiles| - 1])[last.fileName := last]
  }

  /** The position of the last JAR named `fileName`, or -1 if there is none. */
  function LastIndexNamed(jarFiles: seq<JarFile>, fileName: string): (r: int)
    ensures -1 <= r < |jarFiles|
    ensures r >= 0 ==> jarFiles[r].fileName == fileName
    ensures forall k :: r < k < |jarFiles| ==> jarFiles[k].fileName != fileName
  {
    if |jarFiles| == 0 then -1
    else if jarFiles[|jarFiles| - 1].fileName == fileName then |jarFiles| - 1
    else LastIndexNamed(jarFiles[..|jarFiles| - 1], fileName)
  }

  /** The index holds, under each name, the last JAR of that name, and nothing
      under a name no JAR has. */
  lemma {:induction false} FileNameIndexLastWins(jarFiles: seq<JarFile>, fileName: string)
    ensures var i := LastIndexNamed(jarFiles, fileName);
      if i < 0 then fileName !in FileNameIndex(jarFiles)
      else fileName in FileNameIndex(jarFiles) && FileNameIndex(jarFiles)[fileName] == jarFiles[i]
  {
    if |jarFiles| > 0 {
      var init := jarFiles[..|jarFiles| - 1];
      FileNameIndexLastWins(init, fileName);
      assert forall k :: 0 <= k < |init| ==> init[k] == jarFiles[k];
    }
  }

  // ---------------------------------------------------------------------------
  // The class-name index

  /** Every class definition of the classpath, JAR by JAR. */
  function ClassDefsOf(jarFiles: seq<JarFile>): seq<ClassDef> {
    if |jarFiles| == 0 then []
    else ClassDefsOf(jarFiles[..|jarFiles| - 1]) + jarFiles[|jarFiles| - 1].classDefs
  }

  /** `MultiMap.add(className, classDef)` */
  function AddClassDef(index: map<string, set<ClassDef>>, classDef: ClassDef): map<string, set<ClassDef>> {
    var name := classDef.className;
    index[name := (if name in index then index[name] else {}) + {classDef}]
  }

  /** The multimap after adding the given class definitions in order. */
  function IndexClassDefs(classDefs: seq<ClassDef>): map<string, set<ClassDef>> {
    if |classDefs| == 0 then map[]
    else AddClassDef(IndexClassDefs(classDefs[..|classDefs| - 1]), classDefs[|classDefs| - 1])
  }

  /** `classDefsMap` once every class of every JAR has been added. */
  function ClassNameIndex(jarFiles: seq<JarFile>): map<string, set<ClassDef>> {
    IndexClassDefs(ClassDefsOf(jarFiles))
  }

  /** The class definitions among `classDefs` named `className`. */
  function ClassesNamed(classDefs: seq<ClassDef>, className: string): set<ClassDef> {
    set c | c in classDefs && c.className == className
  }

  lemma ClassesNamedSnoc(classDefs: seq<ClassDef>, c: ClassDef, className: string)
    ensures ClassesNamed(classDefs + [c], className) ==
      ClassesNamed(classDefs, className) + (if c.className == className then {c} else {})
  {
  }

  /** Under each class name the multimap holds exactly the class definitions of
      that name, and it has no entry for a name no class has: no empty sets. */
  lemma {:induction false} IndexClassDefsSpec(classDefs: seq<ClassDef>, className: string)
    ensures className in IndexClassDefs(classDefs) <==> ClassesNamed(classDefs, className) != {}
    ensures className in IndexClassDefs(classDefs) ==>
      IndexClassDefs(classDefs)[className] == ClassesNamed(classDefs, className)
  {
    if |classDefs| > 0 {
      var init, last := classDefs[..|classDefs| - 1], classDefs[|classDefs| - 1];
      assert classDefs == init + [last];
      IndexClassDefsSpec(init, className);
      ClassesNamedSnoc(init, last, className);
    }
  }

  /** A class definition is among the classpath's exactly when some JAR has it. */
  lemma {:induction false} ClassDefsOfMember(jarFiles: seq<JarFile>, c: ClassDef)
    ensures c in ClassDefsOf(jarFiles) <==> exists i :: 0 <= i < |jarFiles| && c in jarFiles[i].classDefs
  {
    if |jarFiles| > 0 {
      var init := jarFiles[..|jarFiles| - 1];
      ClassDefsOfMember(init, c);
      assert forall k :: 0 <= k < |init| ==> init[k] == jarFiles[k];
    }
  }

  /** One more class definition added to the multimap. */
  lemma IndexClassDefsStep(before: seq<ClassDef>, classDefs: seq<ClassDef>, k: nat)
    requires k < |classDefs|
    ensures IndexClassDefs(before + classDefs[..k + 1]) ==
      AddClassDef(IndexClassDefs(before + classDefs[..k]), classDefs[k])
  {
    assert (before + classDefs[..k + 1])[..|before| + k] == before + classDefs[..k];
  }

  /** Both indices of one more JAR. */
  lemma IndicesStep(jarFiles: seq<JarFile>, i: nat)
    requires i < |jarFiles|
    ensures FileNameIndex(jarFiles[..i + 1]) == FileNameIndex(jarFiles[..i])[jarFiles[i].fileName := jarFiles[i]]
    ensures ClassNameIndex(jarFiles[..i + 1]) ==
      IndexClassDefs(ClassDefsOf(jarFiles[..i]) + jarFiles[i].classDefs[..|jarFiles[i].classDefs|])
  {
    assert jarFiles[..i + 1][..i] == jarFiles[..i];
    assert jarFiles[i].classDefs[..|jarFiles[i].classDefs|] == jarFiles[i].classDefs;
  }

  // ---------------------------------------------------------------------------
  // The classpath

  class Classpath {
    const jarFiles: seq<JarFile>
    const jarFilesMap: map<string, JarFile>
    const classDefsMap: map<string, set<ClassDef>>

    /** Both lookup maps index `jarFiles`. */
    ghost predicate Valid() {
      && jarFilesMap == FileNameIndex(jarFiles)
      && classDefsMap == ClassNameIndex(jarFiles)
    }

    /** Copies the list and builds both indices, JAR by JAR and class by class. */
    constructor (jarFiles: seq<JarFile>)
      ensures this.jarFiles == jarFiles
      ensures Valid()
    {
      var fileIndex: map<string, JarFile> := map[];
      var classIndex: map<string, set<ClassDef>> := map[];
      var i := 0;
      while i < |jarFiles|
        invariant 0 <= i <= |jarFiles|
        invariant fileIndex == FileNameIndex(jarFiles[..i])
        invariant classIndex == ClassNameIndex(jarFiles[..i])
      {
        var jarFile := jarFiles[i];
        fileIndex := fileIndex[jarFile.fileName := jarFile];
        ghost var before := ClassDefsOf(jarFiles[..i]);
        var classDefs := jarFile.classDefs;
        var k := 0;
        assert before + classDefs[..0] == before;
        while k < |classDefs|
          invariant 0 <= k <= |classDefs|
          invariant classIndex == IndexClassDefs(before + classDefs[..k])
        {
          var classDef := classDefs[k];
          IndexClassDefsStep(before, classDefs, k);
          classIndex := AddClassDef(classIndex, classDef);
          k := k + 1;
        }
        IndicesStep(jarFiles, i);
        i := i + 1;
      }
      assert jarFiles[..i] == jarFiles;
      this.jarFiles := jarFiles;
      this.jarFilesMap := fileIndex;
      this.classDefsMap := classIndex;
    }

    /** `getJarFiles()`: the list given to the constructor, in its order. */
    function GetJarFiles(): (r: seq<JarFile>)
      ensures r == jarFiles
    {
      jarFiles
    }

    /** `getJarFile(fileName)`: the last JAR of that name, or null if none has it. */
    function GetJarFile(fileName: string): (r: Option<JarFile>)
      requires Valid()
      ensures r.None? <==> forall i :: 0 <= i < |jarFiles| ==> jarFiles[i].fileName != fileName
      ensures r.Some? ==>
        exists i :: 0 <= i < |jarFiles| && jarFiles[i] == r.value && jarFiles[i].fileName == fileName &&
          forall k :: i < k < |jarFiles| ==> jarFiles[k].fileName != fileName
    {
      FileNameIndexLastWins(jarFiles, fileName);
      if fileName in jarFilesMap then Some(jarFilesMap[fileName]) else None
    }

    /** `getClassDefs(className)`: every class definition of that name on the
        classpath, or null if no JAR has such a class. */
    function GetClassDefs(className: string): (r: Option<set<ClassDef>>)
      requires Valid()
      ensures r.None? <==> ClassesNamed(ClassDefsOf(jarFiles), className) == {}
      ensures r.Some? ==> r.value == ClassesNamed(ClassDefsOf(jarFiles), className)
      ensures r.Some? ==> r.value != {} && forall c :: c in r.value ==> c.className == className
    {
      IndexClassDefsSpec(ClassDefsOf(jarFiles), className);
      if className in classDefsMap then Some(classDefsMap[className]) else None
    }

    /** `toString()`: "Classpath[" followed by the number of JARs in decimal and "]". */
    function ToString(): (r: string)
      ensures StartsWith(r, "Classpath[") && EndsWith(r, "]") && |r| > 11
      ensures IsDecimal(r[10..|r| - 1]) && DecimalValue(r[10..|r| - 1]) == |jarFiles|
    {
      var digits := NatToString(|jarFiles|);
      var r := "Classpath[" + digits + "]";
      assert r[10..|r| - 1] == digits;
      DecimalValueOfNatToString(|jarFiles|);
      r
    }
  }

  /** `new Classpath(jarFiles)`, which throws `IllegalArgumentException("jarFiles")`
      for a null list; the failure carries that message. */
  method NewClasspath(jarFiles: Option<seq<JarFile>>) returns (r: Result<Classpath, string>)
    ensures jarFiles.None? <==> r.Failure?
    ensures r.Failure? ==> r.error == "jarFiles"
    ensures r.Success? ==> r.value.jarFiles == jarFiles.value && r.value.Valid()
  {
    if jarFiles.None? {
      return Failure("jarFiles");
    }
    var classpath := new Classpath(jarFiles.value);
    return Success(classpath);
  }

  /** Every class definition of every JAR is found under its own name. */
  lemma ClassDefIndexed(classpath: Classpath, i: nat, k: nat)
    requires classpath.Valid()
    requires i < |classpath.jarFiles| && k < |classpath.jarFiles[i].classDefs|
    ensures var c := classpath.jarFiles[i].classDefs[k];
      classpath.GetClassDefs(c.className).Some? && c in classpath.GetClassDefs(c.className).value
  {
    var c := classpath.jarFiles[i].classDefs[k];
    ClassDefsOfMember(classpath.jarFiles, c);
    assert c in ClassesNamed(ClassDefsOf(classpath.jarFiles), c.className);
  }

  /** A class name has no entry exactly when no JAR has a class of that name. */
  lemma ClassDefsAbsent(classpath: Classpath, className: string)
    requires classpath.Valid()
    ensures classpath.GetClassDefs(className).None? <==>
      forall i, k :: 0 <= i < |classpath.jarFiles| && 0 <= k < |classpath.jarFiles[i].classDefs| ==>
        classpath.jarFiles[i].classDefs[k].className != className
  {
    var js := classpath.jarFiles;
    if classpath.GetClassDefs(className).Some? {
      var c :| c in ClassesNamed(ClassDefsOf(js), className);
      ClassDefsOfMember(js, c);
      var i :| 0 <= i < |js| && c in js[i].classDefs;
      var k :| 0 <= k < |js[i].classDefs| && js[i].classDefs[k] == c;
    } else {
      forall i, k | 0 <= i < |js| && 0 <= k < |js[i].classDefs|
        ensures js[i].classDefs[k].className != className
      {
        var c := js[i].classDefs[k];
        ClassDefsOfMember(js, c);
        assert c in ClassDefsOf(js);
        assert c.className == className ==> c in ClassesNamed(ClassDefsOf(js), className);
      }
    }
  }
}
