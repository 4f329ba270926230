/** Byte size of one layer's saved tensors, computed with overflow-checked 64-bit steps
    (dist_u64_add, dist_u64_mul, dist_kv_state_bytes and dist_kv_layer_tensor_bytes in distributed.c). */
module TensorSizing {
  import opened Words

  const FLOAT_BYTES: u64 := 4

  function CheckedAdd(acc: u64, add: u64): Option<u64> {
    if acc > U64_LIMIT - 1 - add then None else Some(acc + add)
  }

  /** The source's test divides instead of multiplying, so that the test itself cannot overflow. */
  function CheckedMul(a: u64, b: u64): (r: Option<u64>)
    ensures r == if a * b < U64_LIMIT then Some(a * b) else None
  {
    MulTestExact(a, b);
    if a != 0 && b > (U64_LIMIT - 1) / a then None else Some(a * b)
  }

  lemma {:induction false} MulTestExact(a: u64, b: u64)
    ensures (a != 0 && b > (U64_LIMIT - 1) / a) <==> a * b >= U64_LIMIT
    ensures a * b >= 0
  {
    if a != 0 {
      var q, m := (U64_LIMIT - 1) / a, (U64_LIMIT - 1) % a;
      assert U64_LIMIT - 1 == a * q + m && 0 <= m < a;
      if b <= q {
        MulMono(b, q, a);
      } else {
        MulMono(q + 1, b, a);
        assert a * (q + 1) == a * q + a;
      }
    }
  }

  /** The row widths and live window that decide a layer's size. */
  datatype Widths = Widths(rawLive: u32, headDim: u32, indexerHeadDim: u32)

  function StateBytes(ratio: u32, headDim: u32): Option<u64> {
    var coff: u64 := if ratio == 4 then 2 else 1;
    var t :- CheckedMul(coff, headDim);
    var t2 :- CheckedMul(t, coff);
    var t3 :- CheckedMul(t2, ratio);
    CheckedMul(t3, FLOAT_BYTES)
  }

  function RowBytes(rows: u32, width: u32): Option<u64> {
    var t :- CheckedMul(rows, width);
    CheckedMul(t, FLOAT_BYTES)
  }

  function LayerTensorBytes(w: Widths, ratio: u32, nComp: u32, nIndexComp: u32): Option<u64> {
    var raw :- RowBytes(w.rawLive, w.headDim);
    var b0 :- CheckedAdd(0, raw);
    if ratio == 0 then Some(b0)
    else
      var comp :- RowBytes(nComp, w.headDim);
      var b1 :- CheckedAdd(b0, comp);
      var attn :- StateBytes(ratio, w.headDim);
      var b2 :- CheckedAdd(b1, attn);
      var b3 :- CheckedAdd(b2, attn);
      if ratio != 4 then Some(b3)
      else
        var index :- RowBytes(nIndexComp, w.indexerHeadDim);
        var b4 :- CheckedAdd(b3, index);
        var state :- StateBytes(ratio, w.indexerHeadDim);
        var b5 :- CheckedAdd(b4, state);
        CheckedAdd(b5, state)
  }

  // ---------- The size over the unbounded integers ----------

  function StateSize(ratio: nat, headDim: nat): nat {
    var coff := if ratio == 4 then 2 else 1;
    4 * (coff * coff * headDim * ratio)
  }

  function RowSize(rows: nat, width: nat): nat {
    4 * (rows * width)
  }

  function LayerSize(w: Widths, ratio: nat, nComp: nat, nIndexComp: nat): nat {
    RowSize(w.rawLive, w.headDim) +
    (if ratio == 0 then 0
     else RowSize(nComp, w.headDim) + 2 * StateSize(ratio, w.headDim) +
          if ratio == 4 then RowSize(nIndexComp, w.indexerHeadDim) + 2 * StateSize(ratio, w.indexerHeadDim) else 0)
  }

  /** n as a 64-bit value, if it fits. */
  function Fit(n: nat): Option<u64> {
    if n < U64_LIMIT then Some(n) else None
  }

  lemma {:induction false} StateBytesExact(ratio: u32, headDim: u32)
    requires ratio != 0
    ensures StateBytes(ratio, headDim) == Fit(StateSize(ratio, headDim))
  {
    var coff := if ratio == 4 then 2 else 1;
    var t2 := coff * headDim * coff;
    assert t2 <= 4 * headDim;
    var t3 := t2 * ratio;
    assert t3 == coff * coff * headDim * ratio;
    assert 0 <= t3 <= t3 * 4;
  }

  lemma {:induction false} RowBytesExact(rows: u32, width: u32)
    ensures RowBytes(rows, width) == Fit(RowSize(rows, width))
  {
    assert 0 <= rows * width;
  }

  /** The checked computation succeeds exactly when the true size fits in 64 bits, and then returns it. */
  lemma {:induction false} LayerTensorBytesExact(w: Widths, ratio: u32, nComp: u32, nIndexComp: u32)
    ensures LayerTensorBytes(w, ratio, nComp, nIndexComp) == Fit(LayerSize(w, ratio, nComp, nIndexComp))
  {
    hide RowBytes, RowSize, StateBytes, StateSize;
    RowBytesExact(w.rawLive, w.headDim);
    if ratio != 0 {
      RowBytesExact(nComp, w.headDim);
      StateBytesExact(ratio, w.headDim);
      if ratio == 4 {
        RowBytesExact(nIndexComp, w.indexerHeadDim);
        StateBytesExact(ratio, w.indexerHeadDim);
      }
    }
  }
}
