/**
 * Data movement in the `omath` helpers: the ring-buffer filter queue and the
 * 4x4 matrix initialisers and transpose.  Floats are carried as their IEEE 754
 * single-precision bit patterns; no arithmetic is done on them here.
 */
module OMath {
  import opened Arith

  /** Bit pattern of a C `float`. */
  type Float32 = bv32

  /** `0.0f`, also what `memset(…, 0, …)` leaves in a float. */
  const ZERO: Float32 := 0
  /** `1.0f` */
  const ONE: Float32 := 0x3F80_0000

  datatype Vec3 = Vec3(x: Float32, y: Float32, z: Float32)

  const ZERO_VEC: Vec3 := Vec3(ZERO, ZERO, ZERO)

  /** `FILTER_QUEUE_MAX_SIZE` */
  const FILTER_QUEUE_MAX_SIZE: nat := 256

  // -----------------------------------------------------------------------
  // Filter queue
  // -----------------------------------------------------------------------

  /**
   * The slots of a filter queue of `size` after the samples `vs` were added
   * to a freshly initialised one: sample `k` went to slot `k % size`.
   */
  ghost function WindowOf(vs: seq<Vec3>, size: nat): (w: seq<Vec3>)
    requires 0 < size <= FILTER_QUEUE_MAX_SIZE
    ensures |w| == FILTER_QUEUE_MAX_SIZE
  {
    if vs == [] then seq(FILTER_QUEUE_MAX_SIZE, _ => ZERO_VEC)
    else WindowOf(vs[..|vs| - 1], size)[(|vs| - 1) % size := vs[|vs| - 1]]
  }

  /**
   * The queue keeps the newest `min(|vs|, size)` samples, sample `k` in slot
   * `k % size`, and never writes at or beyond `size`.
   */
  lemma {:induction false} WindowKeepsNewest(vs: seq<Vec3>, size: nat)
    requires 0 < size <= FILTER_QUEUE_MAX_SIZE
    ensures forall k :: 0 <= k < |vs| && |vs| - k <= size ==> WindowOf(vs, size)[k % size] == vs[k]
    ensures forall j :: size <= j < FILTER_QUEUE_MAX_SIZE ==> WindowOf(vs, size)[j] == ZERO_VEC
  {
    if vs != [] {
      var n := |vs| - 1;
      var front := vs[..n];
      WindowKeepsNewest(front, size);
      forall k | 0 <= k < |vs| && |vs| - k <= size
        ensures WindowOf(vs, size)[k % size] == vs[k]
      {
        if k < n {
          assert k % size != n % size by { ModApart(k, n, size); }
          assert front[k] == vs[k];
        }
      }
    }
  }

  class FilterQueue {
    var at: int
    var size: int
    const elems: array<Vec3>

    /** Every sample added since `ofq_init`, oldest first. */
    ghost var Added: seq<Vec3>

    ghost predicate Valid()
      reads this, elems
    {
      elems.Length == FILTER_QUEUE_MAX_SIZE &&
      0 < size <= FILTER_QUEUE_MAX_SIZE &&
      at == |Added| % size &&
      elems[..] == WindowOf(Added, size)
    }

    /** `ofq_init`: all slots and the index zeroed, `size` recorded. */
    constructor (size: int)
      requires 0 < size <= FILTER_QUEUE_MAX_SIZE
      ensures Valid() && Added == [] && this.size == size && at == 0
      ensures forall j :: 0 <= j < FILTER_QUEUE_MAX_SIZE ==> elems[j] == ZERO_VEC
    {
      elems := new Vec3[FILTER_QUEUE_MAX_SIZE](_ => ZERO_VEC);
      at := 0;
      this.size := size;
      Added := [];
    }

    /** `ofq_add`: store `v` at `at`, then advance `at` modulo `size`. */
    method Add(v: Vec3)
      requires Valid()
      modifies this, elems
      ensures Valid() && Added == old(Added) + [v] && size == old(size)
      ensures elems[old(at)] == v && 0 <= at < size && at == (old(at) + 1) % size
      ensures forall j :: 0 <= j < FILTER_QUEUE_MAX_SIZE && j != old(at) ==> elems[j] == old(elems[j])
    {
      ModSucc(|Added|, size);
      elems[at] := v;
      at := (at + 1) % size;
      Added := Added + [v];
      assert Added[..|Added| - 1] == old(Added);
      assert elems[..] == old(elems[..])[old(at) := v];
    }
  }

  // -----------------------------------------------------------------------
  // 4x4 matrices
  // -----------------------------------------------------------------------

  /** A matrix as rows of columns, `m[i][j]` being row `i`, column `j`. */
  type Mat4 = m: seq<seq<Float32>> | |m| == 4 && forall i :: 0 <= i < 4 ==> |m[i]| == 4
    witness [[0, 0, 0, 0], [0, 0, 0, 0], [0, 0, 0, 0], [0, 0, 0, 0]]

  function Transposed(m: Mat4): (t: Mat4)
    ensures forall i, j :: 0 <= i < 4 && 0 <= j < 4 ==> t[j][i] == m[i][j]
  {
    seq(4, j requires 0 <= j < 4 => seq(4, i requires 0 <= i < 4 => m[i][j]))
  }

  /** Transposing twice gives the matrix back. */
  lemma TransposeInvolution(m: Mat4)
    ensures Transposed(Transposed(m)) == m
  {
    MatrixExt(Transposed(Transposed(m)), m);
  }

  /** Matrices with equal cells are equal. */
  lemma MatrixExt(a: Mat4, b: Mat4)
    requires forall i, j :: 0 <= i < 4 && 0 <= j < 4 ==> a[i][j] == b[i][j]
    ensures a == b
  {
    forall i | 0 <= i < 4
      ensures a[i] == b[i]
    {
    }
  }

  function Cells(a: array2<Float32>): (m: Mat4)
    reads a
    requires a.Length0 == 4 && a.Length1 == 4
    ensures forall i, j :: 0 <= i < 4 && 0 <= j < 4 ==> m[i][j] == a[i, j]
  {
    seq(4, i requires 0 <= i < 4 reads a => seq(4, j requires 0 <= j < 4 reads a => a[i, j]))
  }

  /** `omat4x4f_init_ident`: zero everything, then 1 on the diagonal. */
  method InitIdent(me: array2<Float32>)
    requires me.Length0 == 4 && me.Length1 == 4
    modifies me
    ensures forall i, j :: 0 <= i < 4 && 0 <= j < 4 ==> me[i, j] == if i == j then ONE else ZERO
  {
    forall i, j | 0 <= i < 4 && 0 <= j < 4 {
      me[i, j] := ZERO;
    }
    me[0, 0] := ONE;
    me[1, 1] := ONE;
    me[2, 2] := ONE;
    me[3, 3] := ONE;
  }

  /** `omat4x4f_init_translate`: the identity with `x, y, z` in the last column. */
  method InitTranslate(me: array2<Float32>, x: Float32, y: Float32, z: Float32)
    requires me.Length0 == 4 && me.Length1 == 4
    modifies me
    ensures forall i :: 0 <= i < 3 ==> me[i, 3] == [x, y, z][i]
    ensures forall i, j :: 0 <= i < 4 && 0 <= j < 4 && !(j == 3 && i < 3) ==>
      me[i, j] == if i == j then ONE else ZERO
  {
    InitIdent(me);
    me[0, 3] := x;
    me[1, 3] := y;
    me[2, 3] := z;
  }

  /** `omat4x4f_transpose`: `o[j][i] = m[i][j]` for a separate output matrix. */
  method Transpose(m: array2<Float32>, o: array2<Float32>)
    requires m.Length0 == 4 && m.Length1 == 4 && o.Length0 == 4 && o.Length1 == 4
    requires m != o
    modifies o
    ensures Cells(o) == Transposed(old(Cells(m))) && Cells(m) == old(Cells(m))
  {
    forall i, j | 0 <= i < 4 && 0 <= j < 4 {
      o[j, i] := m[i, j];
    }
    MatrixExt(Cells(o), Transposed(old(Cells(m))));
  }
}
