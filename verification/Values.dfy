/** Any number of values, serialized one after the other and read back. */
module Values {

  import opened Codes
  import opened Stored
  import opened Pools
  import opened PoolCodes
  import opened Serialize

  /** A value, as the writer hands it over. */
  datatype Value =
    | Number(x: nat, bytes: nat)
    | Small(x: nat)
    | Vector(elts: seq<nat>, width: nat)
    | Bitmap(words: seq<nat>)
    | Pooled(elts: seq<nat>, freeBitmap: seq<Word>, freeIndices: seq<nat>, width: nat)

  /** What the reader knows beforehand. */
  datatype Kind =
    | NumberKind(bytes: nat)
    | SmallKind
    | VectorKind(width: nat, maxLength: nat)
    | BitmapKind
    | PoolKind(width: nat)

  /** The fields have their C types, and a pool is one that pool_validate accepts. */
  ghost predicate Proper(v: Value) {
    match v
    case Number(x, n) => n in {1, 2, 4, 8} && x < Range(n)
    case Small(x) => x < U64
    case Vector(xs, w) => |xs| < U32 && Fit(xs, w)
    case Bitmap(ws) => 2 * |ws| < U32 && forall i :: 0 <= i < |ws| ==> ws[i] < U64
    case Pooled(xs, b, fi, w) => |xs| < U32 && |fi| < U32 && Fit(xs, w) && GoodIndices(fi, |xs|) && Marks(b, fi)
  }

  /** The kind of number may be read as a value of that kind. */
  ghost predicate HasKind(v: Value, k: Kind) {
    match v
    case Number(_, n) => k == NumberKind(n)
    case Small(_) => k == SmallKind
    case Vector(xs, w) => k.VectorKind? && k.width == w && |xs| <= k.maxLength
    case Bitmap(_) => k == BitmapKind
    case Pooled(_, _, _, w) => k == PoolKind(w)
  }

  /** Equal; of pools, only the elements in use, the free indices, and what the bitmap marks. */
  ghost predicate Same(v: Value, u: Value) {
    if u.Pooled? then
      v.Pooled? && v.width == u.width && v.freeIndices == u.freeIndices && SameLive(v.elts, u.elts, u.freeIndices) &&
      Marks(v.freeBitmap, u.freeIndices)
    else
      v == u
  }

  ghost function Code(v: Value): seq<byte>
    requires Proper(v)
  {
    match v
    case Number(x, n) => NetBytes(x, n)
    case Small(x) => SmallBytes(x)
    case Vector(xs, w) => VectorBytes(xs, w)
    case Bitmap(ws) => VectorBytes(Halves(ws), WordBytes())
    case Pooled(xs, _, fi, w) => PoolBytes(xs, fi, w)
  }

  ghost predicate AllProper(vs: seq<Value>) {
    forall i :: 0 <= i < |vs| ==> Proper(vs[i])
  }

  ghost predicate HaveKinds(vs: seq<Value>, ks: seq<Kind>) {
    |vs| == |ks| && forall i :: 0 <= i < |vs| ==> HasKind(vs[i], ks[i])
  }

  ghost predicate AllSame(vs: seq<Value>, us: seq<Value>) {
    |vs| == |us| && forall i :: 0 <= i < |vs| ==> Same(vs[i], us[i])
  }

  /** The codes one after the other. */
  ghost function AllCodes(vs: seq<Value>): seq<byte>
    requires AllProper(vs)
  {
    if vs == [] then [] else Code(vs[0]) + AllCodes(vs[1..])
  }

  /** The codes from value k on. */
  ghost function CodesFrom(vs: seq<Value>, k: nat): seq<byte>
    requires AllProper(vs) && k <= |vs|
  {
    AllCodes(vs[k..])
  }

  lemma NextCode(vs: seq<Value>, k: nat)
    requires AllProper(vs) && k < |vs|
    ensures CodesFrom(vs, k) == Code(vs[k]) + CodesFrom(vs, k + 1)
  {
    assert vs[k..][1..] == vs[k + 1..];
  }

  method PutValue(m: Stream, v: Value) returns (ok: bool)
    requires m.Valid() && Proper(v)
    modifies m
    ensures m.Valid() && (ok <==> old(m.index) + |Code(v)| <= |old(m.buffer)|)
    ensures ok ==> Wrote(old(m.buffer), old(m.index), Code(v), m.buffer, m.index)
  {
    match v
    case Number(x, n) => ok := m.PutInteger(x, n);
    case Small(x) => ok := m.PutSmall(x);
    case Vector(xs, w) => ok := m.PutVector(xs, w);
    case Bitmap(ws) => ok := m.PutBitmap(ws);
    case Pooled(xs, b, fi, w) => ok := m.PutPool(xs, b, fi, w);
  }

  /** Reads one value; u is the one that was written, if there was one. */
  method TakeValue(m: Stream, k: Kind, raw: nat -> nat, ghost u: Value) returns (ok: bool, v: Value)
    requires m.Valid() && Proper(u) && (k.NumberKind? ==> k.bytes in {1, 2, 4, 8})
    modifies m`index
    ensures m.Valid()
    ensures HasKind(u, k) && At(m.buffer, old(m.index), Code(u)) ==>
              ok && Same(v, u) && m.index == old(m.index) + |Code(u)|
  {
    match k
    case NumberKind(n) =>
      var x;
      ok, x := m.TakeInteger(n, if u.Number? then u.x else 0);
      v := Number(x, n);
    case SmallKind =>
      var x;
      ok, x := m.TakeSmall(if u.Small? then u.x else 0);
      v := Small(x);
    case VectorKind(w, maxLength) =>
      var xs;
      ok, xs := m.TakeVector(w, maxLength, if u.Vector? then u.elts else []);
      v := Vector(xs, w);
    case BitmapKind =>
      var ws;
      ok, ws := m.TakeBitmap(if u.Bitmap? then u.words else []);
      v := Bitmap(ws);
    case PoolKind(w) =>
      var xs, b, fi;
      ok, xs, b, fi := m.TakePool(w, raw, if u.Pooled? then u.elts else [], if u.Pooled? then u.freeIndices else []);
      v := Pooled(xs, b, fi, w);
  }

  /** Writes values one after the other. */
  method PutAll(m: Stream, vs: seq<Value>) returns (ok: bool)
    requires m.Valid() && AllProper(vs)
    modifies m
    ensures m.Valid() && (ok <==> old(m.index) + |AllCodes(vs)| <= |old(m.buffer)|)
    ensures ok ==> Wrote(old(m.buffer), old(m.index), AllCodes(vs), m.buffer, m.index)
  {
    ok := true;
    ghost var was, i0, done := m.buffer, m.index, [];
    assert vs[0..] == vs;
    assert done + CodesFrom(vs, 0) == AllCodes(vs);
    WroteNothing(was, i0);
    var k: nat := 0;
    while k < |vs|
      invariant m.Valid() && ok && k <= |vs|
      invariant Wrote(was, i0, done, m.buffer, m.index)
      invariant done + CodesFrom(vs, k) == AllCodes(vs)
    {
      ghost var before, j, c := m.buffer, m.index, Code(vs[k]);
      NextCode(vs, k);
      Associates(done, c, CodesFrom(vs, k + 1));
      ok := PutValue(m, vs[k]);
      if !ok {
        return;
      }
      WroteBoth(was, i0, done, before, j, c, m.buffer, m.index);
      done := done + c;
      k := k + 1;
    }
    assert done + [] == done;
  }

  /** Reads value k. */
  method TakeNext(m: Stream, k: nat, ks: seq<Kind>, raw: nat -> nat, ghost us: seq<Value>, ghost end: nat,
                  ghost good: bool)
    returns (ok: bool, v: Value)
    requires m.Valid() && AllProper(us) && HaveKinds(us, ks) && k < |ks|
    requires good ==> At(m.buffer, m.index, CodesFrom(us, k)) && m.index + |CodesFrom(us, k)| == end
    modifies m`index
    ensures m.Valid()
    ensures good ==> ok && Same(v, us[k])
    ensures good ==> At(m.buffer, m.index, CodesFrom(us, k + 1)) && m.index + |CodesFrom(us, k + 1)| == end
  {
    NextCode(us, k);
    if good {
      AtBoth(m.buffer, m.index, Code(us[k]), CodesFrom(us, k + 1));
    }
    ghost var i := m.index + |Code(us[k])|;
    assert HasKind(us[k], ks[k]);
    ok, v := TakeValue(m, ks[k], raw, us[k]);
    assert good ==> m.index == i;
  }

  /** Reads values one after the other. */
  method TakeAll(m: Stream, ks: seq<Kind>, raw: nat -> nat, ghost us: seq<Value>) returns (ok: bool, vs: seq<Value>)
    requires m.Valid() && AllProper(us) && HaveKinds(us, ks)
    modifies m`index
    ensures m.Valid()
    ensures At(m.buffer, old(m.index), AllCodes(us)) ==>
              ok && AllSame(vs, us) && m.index == old(m.index) + |AllCodes(us)|
  {
    ok, vs := true, [];
    ghost var good := At(m.buffer, m.index, AllCodes(us));
    ghost var end := m.index + |AllCodes(us)|;
    assert us[0..] == us;
    var k: nat := 0;
    while k < |ks|
      invariant m.Valid() && ok && |vs| == k <= |ks|
      invariant good ==> At(m.buffer, m.index, CodesFrom(us, k)) && m.index + |CodesFrom(us, k)| == end
      invariant good ==> AllSame(vs, us[..k])
    {
      var v;
      ok, v := TakeNext(m, k, ks, raw, us, end, good);
      if !ok {
        return;
      }
      vs := vs + [v];
      k := k + 1;
    }
    assert us[..|us|] == us && us[|us|..] == [];
  }

  /** What is written into a buffer with room for it is what is then read from it, and the reader
      ends where the writer did. */
  method RoundTrip(bytes: seq<byte>, i: nat, vs: seq<Value>, ks: seq<Kind>, raw: nat -> nat)
    returns (us: seq<Value>, written: nat, read: nat)
    requires AllProper(vs) && HaveKinds(vs, ks) && i + |AllCodes(vs)| <= |bytes|
    ensures AllSame(us, vs) && written == read == i + |AllCodes(vs)|
  {
    var m := new Stream(bytes);
    m.index := i;
    var ok := PutAll(m, vs);
    WroteAt(bytes, i, AllCodes(vs), m.buffer, m.index);
    written, m.index := m.index, i;
    ok, us := TakeAll(m, ks, raw, vs);
    read := m.index;
  }
}
