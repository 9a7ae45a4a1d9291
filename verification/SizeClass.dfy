/** The 29 size classes and the rounding of a request to a class. */
module SizeClass {
  import opened Wrappers

  const NUM_CLASSES: nat := 29
  const SIZES: seq<nat> := [8, 16, 32, 48, 64, 96, 128, 192, 256, 384, 512, 768, 1024, 1536, 2048, 3072, 4096,
                            6144, 8192, 12288, 16384, 24576, 32768, 49152, 65536, 98304, 131072, 196608, 262144]

  lemma Increasing()
    ensures |SIZES| == NUM_CLASSES
    ensures forall i | 0 <= i < NUM_CLASSES :: SIZES[i] > 0
    ensures forall i, j | 0 <= i < j < NUM_CLASSES :: SIZES[i] < SIZES[j]
  {
  }

  lemma Close(i: nat)
    requires i < NUM_CLASSES
    ensures SIZES[i] % 8 == 0 && if i == 0 then SIZES[i] == 8 else SIZES[i] <= 2 * SIZES[i - 1]
  {
  }

  function Size(index: nat): (c: nat)
    requires index < NUM_CLASSES
    ensures c > 0
  {
    Increasing();
    SIZES[index]
  }

  /**
   * The least class that fits the request, less than twice of it from 8 bytes
   * on; none above 256 KB, where `malloc` takes over.
   */
  method GetIndex(size: nat) returns (r: Option<nat>)
    ensures r.None? <==> size > 262144
    ensures r.Some? ==> r.value < NUM_CLASSES && size <= Size(r.value)
    ensures r.Some? ==> forall i | 0 <= i < r.value :: Size(i) < size
    ensures r.Some? ==> Size(r.value) % 8 == 0 && (Size(r.value) == 8 || Size(r.value) < 2 * size)
  {
    Increasing();
    if size > SIZES[NUM_CLASSES - 1] {
      return None;
    }
    var i := 0;
    while i < NUM_CLASSES
      invariant 0 <= i <= NUM_CLASSES
      invariant forall j | 0 <= j < i :: SIZES[j] < size
    {
      if SIZES[i] >= size {
        Close(i);
        assert i > 0 ==> SIZES[i - 1] < size;
        return Some(i);
      }
      i := i + 1;
    }
    assert false;
  }
}
