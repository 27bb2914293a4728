/** The write buffer of internal/influxdb/influxdb.go. Every method runs with the mutex held. */
module Influx {

  class Influxdb<Point(0)> {
    /** The slice Points: a backing array and a length. */
    var backing: array<Point>
    var length: nat
    /** What the database has stored, and everything ever passed to Write. */
    ghost var batches: seq<seq<Point>>
    ghost var written: seq<Point>

    ghost predicate Valid()
      reads this, backing
    {
      length <= backing.Length && Concat(batches) + Points() == written
    }

    function Points(): seq<Point>
      requires length <= backing.Length
      reads this, backing
    {
      backing[..length]
    }

    constructor ()
      ensures Valid() && fresh(backing) && written == [] && batches == []
    {
      backing := new Point[0];
      length := 0;
      batches, written := [], [];
    }

    /** append(i.Points, p): in place while the array has room, else into a larger copy. */
    method Write(p: Point)
      requires Valid()
      modifies this, backing
      ensures Valid() && written == old(written) + [p] && batches == old(batches)
      ensures Points() == old(Points()) + [p]
      ensures backing == old(backing) || fresh(backing)
    {
      if length < backing.Length {
        backing[length] := p;
      } else {
        var larger := new Point[2 * backing.Length + 1];
        for k := 0 to length
          modifies larger
          invariant larger[..k] == backing[..k]
        {
          larger[k] := backing[k];
        }
        larger[length] := p;
        backing := larger;
      }
      length := length + 1;
      assert Points() == old(Points()) + [p];
      written := written + [p];
      assert Concat(batches) + Points() == (Concat(batches) + old(Points())) + [p];
    }

    method ClearPoints()
      modifies `length
      ensures length == 0
    {
      length := 0;
    }

    /** WritePoint gets exactly the live points, whatever older ones the array still holds past them. They are
        stored as one batch, or the write fails and nothing changes. */
    method Commit(writeOk: bool) returns (sent: seq<Point>, err: bool)
      requires Valid()
      modifies `length, `batches
      ensures Valid() && err == !writeOk
      ensures sent == old(Points()) == old(written)[|Concat(old(batches))|..]
      ensures batches == if writeOk then old(batches) + [sent] else old(batches)
      ensures Points() == if writeOk then [] else old(Points())
    {
      sent := backing[..length];
      if !writeOk {
        return sent, true;
      }
      ConcatAppend(batches, sent);
      batches := batches + [sent];
      ClearPoints();
      assert Concat(batches) + Points() == Concat(batches);
      err := false;
    }
  }

  function Concat<Point>(batches: seq<seq<Point>>): seq<Point> {
    if batches == [] then [] else Concat(batches[..|batches| - 1]) + batches[|batches| - 1]
  }

  lemma ConcatAppend<Point>(batches: seq<seq<Point>>, b: seq<Point>)
    ensures Concat(batches + [b]) == Concat(batches) + b
  {
    assert (batches + [b])[..|batches|] == batches;
  }
}
