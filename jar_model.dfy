/** The parts of the archive model the core reads: a class definition and a
    loaded JAR file. Both are immutable values. */
module JarModel {

  type byte = bv8

  /** A decoded class file: its internal (slash-form) name and class-file version.
      Two class definitions are equal when all three fields agree. */
  datatype ClassDef = ClassDef(className: string, majorVersion: nat, minorVersion: nat)

  /** A loaded JAR: its base file name, its size in bytes and its classes in the
      order they were found in the archive. */
  datatype JarFile = JarFile(fileName: string, fileSize: int, classDefs: seq<ClassDef>)
}
