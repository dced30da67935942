/** The output file of a download: preallocated as `length` zero bytes, then
    overwritten at offsets by the workers (open 'r+b', seek, write), and
    removed when the download fails. */
module Storage {

  newtype Byte = b: int | 0 <= b < 256

  function Zeros(n: nat): (z: seq<Byte>)
    ensures |z| == n && forall k :: 0 <= k < n ==> z[k] == 0
  {
    seq(n, _ => 0)
  }

  function Max(a: nat, b: nat): nat
  {
    if a < b then b else a
  }

  /** File contents after seeking to `start` and writing `chunk`: the bytes of
      chunk replace those at [start, start + |chunk|); a write that reaches
      past the end grows the file, and a gap between the old end and start
      reads as zero bytes. Writing no bytes leaves the file as it was, even
      after a seek past its end. */
  function Overwrite(file: seq<Byte>, start: nat, chunk: seq<Byte>): (r: seq<Byte>)
    ensures |r| == if chunk == [] then |file| else Max(|file|, start + |chunk|)
    ensures forall k :: 0 <= k < |chunk| ==> r[start + k] == chunk[k]
    ensures forall k :: 0 <= k < |r| && !(start <= k < start + |chunk|) ==>
              r[k] == if k < |file| then file[k] else 0
  {
    if chunk == [] then file else
    var padded := if start <= |file| then file else file + Zeros(start - |file|);
    var tail := if start + |chunk| <= |padded| then padded[start + |chunk|..] else [];
    padded[..start] + chunk + tail
  }

  /** A write that stays inside the file keeps its length and leaves every
      byte outside [start, start + |chunk|) as it was. */
  lemma OverwriteInside(file: seq<Byte>, start: nat, chunk: seq<Byte>, k: nat)
    requires start + |chunk| <= |file| && k < |file|
    ensures |Overwrite(file, start, chunk)| == |file|
    ensures Overwrite(file, start, chunk)[k]
            == if start <= k < start + |chunk| then chunk[k - start] else file[k]
  {
    if start <= k < start + |chunk| {
      assert Overwrite(file, start, chunk)[start + (k - start)] == chunk[k - start];
    }
  }

  /** Writing chunk right after a prefix replaces the front of what follows. */
  lemma OverwriteAfterPrefix(done: seq<Byte>, chunk: seq<Byte>, rest: seq<Byte>)
    requires |chunk| <= |rest|
    ensures Overwrite(done + rest, |done|, chunk) == done + chunk + rest[|chunk|..]
  {
    var file := done + rest;
    var r := Overwrite(file, |done|, chunk);
    var e := done + chunk + rest[|chunk|..];
    forall k | 0 <= k < |file|
      ensures r[k] == e[k]
    {
      OverwriteInside(file, |done|, chunk, k);
    }
  }

  /** Two writes to disjoint spans inside the file give the same contents in
      either order, so concurrent workers need no lock between them. */
  lemma OverwriteCommutes(file: seq<Byte>, s1: nat, c1: seq<Byte>, s2: nat, c2: seq<Byte>)
    requires s1 + |c1| <= |file| && s2 + |c2| <= |file|
    requires s1 + |c1| <= s2 || s2 + |c2| <= s1
    ensures Overwrite(Overwrite(file, s1, c1), s2, c2) == Overwrite(Overwrite(file, s2, c2), s1, c1)
  {
    var a := Overwrite(Overwrite(file, s1, c1), s2, c2);
    var b := Overwrite(Overwrite(file, s2, c2), s1, c1);
    forall k | 0 <= k < |file|
      ensures a[k] == b[k]
    {
      OverwriteInside(file, s1, c1, k);
      OverwriteInside(file, s2, c2, k);
      OverwriteInside(Overwrite(file, s1, c1), s2, c2, k);
      OverwriteInside(Overwrite(file, s2, c2), s1, c1, k);
    }
  }

  /** The output file on disk: its bytes, and whether it still exists. */
  class OutFile {
    var data: array<Byte>
    var present: bool

    function Contents(): seq<Byte>
      reads this, data
    {
      data[..]
    }

    /** open(name, 'wb') followed by writing `length` zero bytes. */
    constructor Preallocate(length: nat)
      ensures present && Contents() == Zeros(length) && fresh(data)
    {
      data := new Byte[length](_ => 0);
      present := true;
    }

    /** open(name, 'r+b'), seek(start), write(chunk). */
    method WriteAt(start: nat, chunk: seq<Byte>)
      requires present
      modifies this, data
      ensures present
      ensures data == old(data) || fresh(data)
      ensures Contents() == Overwrite(old(Contents()), start, chunk)
    {
      ghost var before := Contents();
      var end := start + |chunk|;
      if data.Length < end && |chunk| > 0 {
        var grown := new Byte[end](_ => 0);
        var j := 0;
        while j < data.Length
          invariant 0 <= j <= data.Length && data.Length <= end
          invariant forall k :: 0 <= k < end ==> grown[k] == if k < j then data[k] else 0
          modifies grown
        {
          grown[j] := data[j];
          j := j + 1;
        }
        data := grown;
      }
      ghost var padded := Contents();
      assert |padded| == if chunk == [] then |before| else Max(|before|, end);
      assert forall k :: 0 <= k < |padded| ==> padded[k] == if k < |before| then before[k] else 0;
      var i := 0;
      while i < |chunk|
        invariant 0 <= i <= |chunk| && data.Length == |padded|
        invariant forall k :: 0 <= k < data.Length ==>
                    data[k] == if start <= k < start + i then chunk[k - start] else padded[k]
        modifies data
      {
        data[start + i] := chunk[i];
        i := i + 1;
      }
      ghost var r := Overwrite(before, start, chunk);
      forall k | 0 <= k < |r|
        ensures Contents()[k] == r[k]
      {
        if start <= k < end {
          assert r[start + (k - start)] == chunk[k - start];
        }
      }
    }

    /** os.remove(name): the file no longer exists. */
    method Remove()
      modifies this
      ensures !present && data == old(data)
    {
      present := false;
    }
  }
}
