/**
 A directory tree as a map from paths to contents. Every operation may fail; what happens at the nth
 operation is fixed by an oracle, so a statement about all oracles is one about all failures.
 */
module FileSystem {
  import opened Common

  datatype Path = Path(parent: nat, name: nat)

  type Contents = seq<nat>

  type Files = map<Path, Contents>

  /** A failing write leaves a prefix. An interrupted replacement raises after it took effect. */
  datatype Fault = Works | Fails(written: nat) | Interrupted

  type Oracle = nat -> Fault

  function Get(files: Files, p: Path): Option<Contents> {
    if p in files then Some(files[p]) else None
  }

  function NamesIn(files: Files, parent: nat): set<nat> {
    set p | p in files && p.parent == parent :: p.name
  }

  class Disk {
    var files: Files
    /** How many operations there have been. */
    var clock: nat
    /** Every state after an operation. */
    ghost var seen: seq<Files>
    const fault: Oracle
    /** The name that mkstemp settles on, given the names taken. */
    const temporaryName: (nat, set<nat>) -> nat

    ghost predicate Valid() {
      forall k, taken: set<nat> :: temporaryName(k, taken) !in taken
    }

    /** One operation has happened since the clock was c. */
    ghost predicate Ticked(c: nat, s: seq<Files>)
      reads this
    {
      clock == c + 1 && seen == s + [files]
    }

    /** No operation since tick c has raised. */
    ghost predicate Quiet(c: nat)
      reads this
    {
      forall k :: c <= k < clock ==> fault(k) == Works
    }

    /** At most one operation since tick c has raised. */
    ghost predicate OneFailure(c: nat)
      reads this
    {
      forall k, l :: c <= k < l < clock ==> fault(k) == Works || fault(l) == Works
    }

    constructor (files: Files, fault: Oracle, temporaryName: (nat, set<nat>) -> nat)
      ensures this.files == files && clock == 0 && seen == []
      ensures this.fault == fault && this.temporaryName == temporaryName
    {
      this.files, clock, seen := files, 0, [];
      this.fault, this.temporaryName := fault, temporaryName;
    }

    /** Ends an operation that has left these files. */
    method Done(after: Files)
      modifies this
      ensures Ticked(old(clock), old(seen)) && files == after
    {
      files, clock, seen := after, clock + 1, seen + [after];
    }

    /** mkstemp: an empty file under a name that is not taken. */
    method Create(parent: nat) returns (raised: bool, p: Path)
      requires Valid()
      modifies this
      ensures Ticked(old(clock), old(seen)) && (raised <==> fault(old(clock)) != Works)
      ensures p == Path(parent, temporaryName(old(clock), NamesIn(old(files), parent))) && p !in old(files)
      ensures files == if raised then old(files) else old(files)[p := []]
    {
      p := Path(parent, temporaryName(clock, NamesIn(files, parent)));
      assert p in files ==> p.name in NamesIn(files, parent);
      raised := fault(clock) != Works;
      Done(if raised then files else files[p := []]);
    }

    /** Writes a file through, creating it if need be. */
    method Write(p: Path, text: Contents) returns (raised: bool)
      modifies this
      ensures Ticked(old(clock), old(seen)) && (raised <==> fault(old(clock)) != Works)
      ensures !raised ==> files == old(files)[p := text]
      ensures raised ==> exists n :: 0 <= n <= |text| && files == old(files)[p := text[..n]]
    {
      match fault(clock)
      case Works =>
        raised := false;
        Done(files[p := text]);
      case Fails(written) =>
        raised := true;
        Done(files[p := text[..if written <= |text| then written else |text|]]);
      case Interrupted =>
        raised := true;
        assert text[..|text|] == text;
        Done(files[p := text]);
    }

    /** Flushing, closing and opening: they may raise and change no file. */
    method Check() returns (raised: bool)
      modifies this
      ensures Ticked(old(clock), old(seen)) && (raised <==> fault(old(clock)) != Works)
      ensures files == old(files)
    {
      raised := fault(clock) != Works;
      Done(files);
    }

    /** Atomic replacement; an interrupt arrives after it. */
    method Replace(src: Path, dst: Path) returns (raised: bool)
      requires src != dst
      modifies this
      ensures Ticked(old(clock), old(seen)) && (raised <==> fault(old(clock)) != Works || src !in old(files))
      ensures files ==
        if src !in old(files) || fault(old(clock)).Fails? then old(files)
        else old(files)[dst := old(files)[src]] - {src}
    {
      raised := fault(clock) != Works || src !in files;
      Done(if src in files && !fault(clock).Fails? then files[dst := files[src]] - {src} else files);
    }

    /** A file that is not there is not an error. */
    method Unlink(p: Path) returns (raised: bool)
      modifies this
      ensures Ticked(old(clock), old(seen)) && (raised <==> fault(old(clock)) != Works)
      ensures files == if raised then old(files) else old(files) - {p}
    {
      raised := fault(clock) != Works;
      Done(if raised then files else files - {p});
    }

    /** A second name for a file. */
    method Link(src: Path, dst: Path) returns (raised: bool)
      requires src in files
      modifies this
      ensures Ticked(old(clock), old(seen)) && (raised <==> fault(old(clock)) != Works || dst in old(files))
      ensures files == if raised then old(files) else old(files)[dst := old(files)[src]]
    {
      raised := dst in files || fault(clock) != Works;
      Done(if raised then files else files[dst := files[src]]);
    }
  }
}
