/**
 * The breadth-first search queue of the maze engine: a circular buffer of cells
 * held in two parallel coordinate arrays of `QSIZE` slots, with a front and a rear
 * index that advance modulo `QSIZE`.  Pushing has no overflow check.
 */
module CircularQueue {
  import opened MazeGraph

  class CellQueue {
    /** Row and column coordinates of the queued cells. */
    const qr: array<int>
    const qc: array<int>
    /** Slot of the next cell to pop, and slot the next push writes. */
    var front: int
    var rear: int
    /** The queued cells, front first: the `Count()` slots from `front` onwards. */
    ghost var contents: seq<Cell>

    /** The buffers have `QSIZE` slots and both indices point into them. */
    ghost predicate Indices()
      reads this
    {
      && qr.Length == QSIZE && qc.Length == QSIZE && qr != qc
      && 0 <= front < QSIZE && 0 <= rear < QSIZE
    }

    ghost predicate Valid()
      reads this, qr, qc
    {
      && Indices()
      && |contents| == Count()
      && forall i :: 0 <= i < |contents| ==> contents[i] == Cell(qr[Slot(front, i)], qc[Slot(front, i)])
    }

    /** Number of queued cells: the distance from `front` forward to `rear`. */
    function Count(): (n: int)
      requires Indices()
      reads this
      ensures 0 <= n < QSIZE
      ensures n == 0 <==> front == rear
    {
      if front <= rear then rear - front else rear + QSIZE - front
    }

    /** Slot of the `i`-th queued cell, counting from slot `front`. */
    static function Slot(front: int, i: int): (k: int)
      requires 0 <= front < QSIZE && 0 <= i < QSIZE
      ensures 0 <= k < QSIZE
    {
      if front + i < QSIZE then front + i else front + i - QSIZE
    }

    constructor ()
      ensures Valid() && front == 0 && rear == 0 && contents == []
      ensures fresh(qr) && fresh(qc)
    {
      qr := new int[QSIZE];
      qc := new int[QSIZE];
      front, rear := 0, 0;
      contents := [];
    }

    /** Resets the queue to empty, with both indices at slot 0. */
    method Init()
      requires Valid()
      modifies this`front, this`rear, this`contents
      ensures Valid() && front == 0 && rear == 0 && contents == []
    {
      front, rear := 0, 0;
      contents := [];
    }

    /** Whether the queue holds no cell. */
    function IsEmpty(): (e: bool)
      requires Valid()
      reads this, qr, qc
      ensures e <==> front == rear
      ensures e <==> contents == []
    {
      front == rear
    }

    /**
     * Writes the cell at the rear slot and advances `rear`.  Below capacity the cell
     * joins the back of the queue; when `QSIZE - 1` cells are already queued, `rear`
     * catches up with `front` and the queue reads as empty.
     */
    method Push(r: int, c: int)
      requires Valid()
      modifies this`rear, this`contents, qr, qc
      ensures Valid() && front == old(front) && rear == (old(rear) + 1) % QSIZE
      ensures old(Count()) < QSIZE - 1 ==> contents == old(contents) + [Cell(r, c)]
      ensures old(Count()) == QSIZE - 1 ==> contents == []
    {
      ghost var n := Count();
      qr[rear] := r;
      qc[rear] := c;
      rear := (rear + 1) % QSIZE;
      if n < QSIZE - 1 {
        contents := contents + [Cell(r, c)];
        forall i | 0 <= i < |contents|
          ensures contents[i] == Cell(qr[Slot(front, i)], qc[Slot(front, i)])
        {
          if i < n {
            assert Slot(front, i) != old(rear);
          }
        }
      } else {
        contents := [];
      }
    }

    /**
     * Reads the cell at the front slot and advances `front`.  On a non-empty queue
     * this is the oldest queued cell, which leaves the queue; on an empty queue the
     * stale slot is read and the queue then reads as holding the `QSIZE - 1` stale
     * cells after it.
     */
    method Pop() returns (r: int, c: int)
      requires Valid()
      modifies this`front, this`contents
      ensures Valid() && rear == old(rear) && front == (old(front) + 1) % QSIZE
      ensures old(contents) != [] ==> Cell(r, c) == old(contents)[0] && contents == old(contents)[1..]
      ensures old(contents) == [] ==> Cell(r, c) == Cell(qr[old(front)], qc[old(front)]) && |contents| == QSIZE - 1
    {
      r := qr[front];
      c := qc[front];
      front := (front + 1) % QSIZE;
      if old(contents) != [] {
        contents := contents[1..];
      } else {
        contents := seq(QSIZE - 1, i requires 0 <= i < QSIZE - 1 && Indices() reads this, qr, qc =>
                          Cell(qr[Slot(front, i)], qc[Slot(front, i)]));
      }
    }
  }
}
