/**
 * terms/zero.go: best-effort secure erase. Each file is overwritten in place
 * with pseudo-random bytes a number of times, then removed; the sweep over the
 * sensitive files carries on past failures and ends the process.
 */
module Zero {
  import opened Wrappers
  import opened Errors
  import Consts

  /**
   * What the file system holds under a name. `faultyPass` is the first
   * overwrite pass whose `WriteAt` the device rejects, if any.
   */
  datatype Node =
    | Directory
    | File(data: seq<byte>, writable: bool, faultyPass: Option<nat>)

  /** Whether shredding `node` with `passes` rounds fails (and the node stays). */
  predicate ShredFails(node: Node, passes: int) {
    match node
    case Directory => true
    case File(_, writable, faultyPass) => !writable || (faultyPass.Some? && faultyPass.value < passes)
  }

  /** A node with its contents forgotten: all that decides whether shredding it fails. */
  function Shape(node: Node): (s: Node)
    ensures ShredFails(s, 3) == ShredFails(node, 3)
  {
    if node.File? then node.(data := []) else node
  }

  /** The bytes one pass writes: `size` bytes of the pseudo-random stream for that pass. */
  function PassBytes(noise: nat -> nat -> byte, pass: nat, size: nat): (b: seq<byte>)
    ensures |b| == size
  {
    seq(size, j requires 0 <= j < size => noise(pass)(j))
  }

  /** The contents after the passes before `pass` have all been written over `data`. */
  function Overwritten(data: seq<byte>, noise: nat -> nat -> byte, pass: nat): (d: seq<byte>)
    ensures |d| == |data|
  {
    if pass == 0 then data else PassBytes(noise, pass - 1, |data|)
  }

  /** The files the process can see, by the name it uses for them. */
  class FileSystem {
    var files: map<string, Node>

    constructor (files: map<string, Node>)
      ensures this.files == files
    {
      this.files := files;
    }

    /**
     * `ShredAndDelete`: Stat, open for writing, `passes` overwrites of the
     * whole length at offset 0, then Remove. `math/rand` never fails, so the
     * only faults are the missing name, the open and a rejected write.
     */
    method ShredAndDelete(path: string, passes: int, noise: nat -> nat -> byte) returns (err: Option<Error>)
      modifies this
      ensures path !in old(files) ==> err == Some(NotExist) && files == old(files)
      ensures path in old(files) && old(files)[path].Directory? ==> err == Some(IsDirectory) && files == old(files)
      ensures path in old(files) && old(files)[path].File? && !old(files)[path].writable ==>
                err == Some(PermissionDenied) && files == old(files)
      ensures path in old(files) && old(files)[path].File? && old(files)[path].writable ==>
                var f := old(files)[path];
                if ShredFails(f, passes) then
                  && err == Some(WriteFailed)
                  && files == old(files)[path := f.(data := Overwritten(f.data, noise, f.faultyPass.value))]
                else
                  err == None && files == old(files) - {path}
      ensures err.None? <==> path in old(files) && !ShredFails(old(files)[path], passes)
    {
      if path !in files {
        return Some(NotExist);
      }
      var node := files[path];
      if node.Directory? {
        return Some(IsDirectory);
      }
      if !node.writable {
        return Some(PermissionDenied);
      }
      var size := |node.data|;
      var i := 0;
      while i < passes
        invariant 0 <= i && (passes >= 0 ==> i <= passes)
        invariant node.faultyPass.Some? ==> i <= node.faultyPass.value
        invariant path in files && files == old(files)[path := node.(data := Overwritten(old(files)[path].data, noise, i))]
      {
        if node.faultyPass == Some(i) {
          return Some(WriteFailed);
        }
        files := files[path := node.(data := PassBytes(noise, i, size))];
        i := i + 1;
      }
      files := files - {path};
      err := None;
    }

    /**
     * One round of the sweep: a name that exists is shredded with three
     * passes; it survives exactly when shredding it fails, keeping its shape.
     */
    method SweepOne(name: string, noise: nat -> nat -> byte) returns (failedHere: bool)
      modifies this
      ensures failedHere <==> name in old(files) && ShredFails(old(files)[name], 3)
      ensures name in files <==> failedHere
      ensures forall other :: other != name ==>
                (other in files <==> other in old(files)) && (other in files ==> files[other] == old(files)[other])
      ensures forall n :: n in files ==> n in old(files) && Shape(files[n]) == Shape(old(files)[n])
    {
      failedHere := false;
      if name in files {
        var err := ShredAndDelete(name, 3, noise);
        failedHere := err.Some?;
      }
    }

    /**
     * `NukeFiles` with the value of `AUTH_FILE_PATH` given: every listed name
     * that exists is shredded with three passes, a failure is reported and the
     * sweep goes on; the process then exits with status 1.
     */
    method NukeFiles(authFile: string, noise: string -> nat -> nat -> byte) returns (exitCode: int, failed: seq<string>)
      modifies this
      ensures exitCode == 1
      ensures failed == Failures(Targets(authFile), old(files))
      ensures Swept(old(files), files, authFile)
    {
      var targets := Targets(authFile);
      failed := [];
      var i := 0;
      while i < |targets|
        invariant 0 <= i <= |targets|
        invariant failed == Failures(targets[..i], old(files))
        invariant forall name :: name !in targets[..i] ==>
                    (name in files <==> name in old(files)) && (name in files ==> files[name] == old(files)[name])
        invariant forall name :: name in targets[..i] ==>
                    (name in files <==> name in old(files) && ShredFails(old(files)[name], 3))
        invariant forall name :: name in files ==> name in old(files) && Shape(files[name]) == Shape(old(files)[name])
      {
        var name := targets[i];
        FailuresSnoc(targets[..i], name, old(files));
        assert targets[..i + 1] == targets[..i] + [name];
        var failedHere := SweepOne(name, noise(name));
        if failedHere {
          failed := failed + [name];
        }
        i := i + 1;
      }
      assert targets[..i] == targets;
      exitCode := 1;
    }
  }

  /**
   * The sweep's effect: names off the list keep their node, and a listed name
   * survives exactly when it existed and could not be shredded.
   */
  ghost predicate Swept(before: map<string, Node>, after: map<string, Node>, authFile: string) {
    && (forall name :: name !in Targets(authFile) ==>
          (name in after <==> name in before) && (name in after ==> after[name] == before[name]))
    && (forall name :: name in Targets(authFile) ==>
          (name in after <==> name in before && ShredFails(before[name], 3)))
  }

  /** The names `NukeFiles` visits, in order, used as given (relative to the working directory). */
  function Targets(authFile: string): (t: seq<string>)
    ensures |t| == 4 && t[0] == Consts.SecretRook && t[1] == authFile
    ensures t[2] == Consts.StoreFilePath && t[3] == Consts.AttemptsPath
  {
    [Consts.SecretRook, authFile, Consts.StoreFilePath, Consts.AttemptsPath]
  }

  /** The names, in visiting order, that exist and whose shredding fails. */
  function Failures(names: seq<string>, files: map<string, Node>): seq<string>
  {
    if names == [] then []
    else
      var last := names[|names| - 1];
      Failures(names[..|names| - 1], files) + (if last in files && ShredFails(files[last], 3) then [last] else [])
  }

  lemma FailuresSnoc(names: seq<string>, name: string, files: map<string, Node>)
    ensures Failures(names + [name], files) ==
              Failures(names, files) + (if name in files && ShredFails(files[name], 3) then [name] else [])
  {
    assert (names + [name])[..|names|] == names;
  }

  /** The store is a directory, so the sweep can never shred it. */
  lemma StoreDirectoryResists(files: map<string, Node>, authFile: string)
    requires Consts.StoreFilePath in files && files[Consts.StoreFilePath].Directory?
    ensures Consts.StoreFilePath in Failures(Targets(authFile), files)
  {
    var t := Targets(authFile);
    assert t[..3][..2] == t[..2];
    assert t[..3] == t[..2] + [t[2]];
    assert t == t[..3] + [t[3]];
    assert Failures(t[..3], files) == Failures(t[..2], files) + [t[2]];
  }
}
