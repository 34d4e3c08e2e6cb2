/** The shiftable buffer of bit triples, GC/ShiftableTripleBuffer.h: requests for n bits are served from
    fetched triples of a whole word. */
module TripleBuffer {

  /** A word, least significant bit first. */
  type Word = seq<bool>

  datatype Triple = Triple(a: Word, b: Word, c: Word)

  function Xor(x: bool, y: bool): bool { x != y }

  function BitAt(w: Word, i: int): bool { 0 <= i < |w| && w[i] }

  function Mask(w: Word, n: nat): (r: Word)
    ensures |r| == |w|
  {
    seq(|w|, i requires 0 <= i < |w| => i < n && w[i])
  }

  function Shr(w: Word, n: nat): (r: Word)
    ensures |r| == |w|
  {
    seq(|w|, i requires 0 <= i < |w| => BitAt(w, i + n))
  }

  function Shl(w: Word, n: nat): (r: Word)
    ensures |r| == |w|
  {
    seq(|w|, i requires 0 <= i < |w| => BitAt(w, i - n))
  }

  function Plus(v: Word, w: Word): (r: Word)
    requires |v| == |w|
    ensures |r| == |v|
  {
    seq(|w|, i requires 0 <= i < |w| => Xor(v[i], w[i]))
  }

  predicate Sized(t: Triple, size: nat) { |t.a| == |t.b| == |t.c| == size }

  /** The bits of t at position i, one of each word. */
  function Slot(t: Triple, i: int): (bool, bool, bool) { (BitAt(t.a, i), BitAt(t.b, i), BitAt(t.c, i)) }

  ghost predicate Multiplies(t: Triple) { forall i :: Slot(t, i).2 == (Slot(t, i).0 && Slot(t, i).1) }

  const NOTHING := (false, false, false)

  // ----- where bits come from

  /** Position `bit` of the fetched triple number `number`. */
  datatype Tag = Tag(number: nat, bit: nat)

  function FreshTags(number: nat, size: nat): (r: seq<Tag>)
    ensures |r| == size
  {
    seq(size, i requires 0 <= i < size => Tag(number, i))
  }

  function Origin(fetched: seq<Triple>, t: Tag): (bool, bool, bool) {
    if t.number < |fetched| then Slot(fetched[t.number], t.bit) else NOTHING
  }

  /** Every position of every fetched triple is listed exactly once, and nothing else is. */
  ghost predicate Accounted(tags: seq<Tag>, count: nat, size: nat) {
    forall t: Tag :: multiset(tags)[t] == if t.number < count && t.bit < size then 1 else 0
  }

  lemma {:induction false} FreshTagsOnce(number: nat, size: nat, t: Tag)
    ensures multiset(FreshTags(number, size))[t] == if t.number == number && t.bit < size then 1 else 0
  {
    if size > 0 {
      FreshTagsOnce(number, size - 1, t);
      assert FreshTags(number, size) == FreshTags(number, size - 1) + [Tag(number, size - 1)];
    } else {
      assert FreshTags(number, 0) == [];
    }
  }

  lemma AccountedFetch(tags: seq<Tag>, count: nat, size: nat)
    requires Accounted(tags, count, size)
    ensures Accounted(tags + FreshTags(count, size), count + 1, size)
  {
    forall t: Tag
      ensures multiset(tags + FreshTags(count, size))[t] == if t.number < count + 1 && t.bit < size then 1 else 0
    {
      FreshTagsOnce(count, size, t);
    }
  }

  lemma AccountedReorder(tags: seq<Tag>, tags': seq<Tag>, count: nat, size: nat)
    requires Accounted(tags, count, size) && multiset(tags) == multiset(tags')
    ensures Accounted(tags', count, size)
  {}

  lemma CountedTwice(tags: seq<Tag>, i: nat, j: nat)
    requires i < j < |tags| && tags[i] == tags[j]
    ensures multiset(tags)[tags[i]] >= 2
  {
    assert tags == tags[..j] + tags[j..];
    assert tags[i] in tags[..j] && tags[j] in tags[j..];
  }

  /** An accounted list has no position twice: no bit is delivered twice, or delivered and buffered. */
  lemma AtMostOnce(tags: seq<Tag>, count: nat, size: nat, i: nat, j: nat)
    requires Accounted(tags, count, size) && i < j < |tags|
    ensures tags[i] != tags[j]
  {
    if tags[i] == tags[j] { CountedTwice(tags, i, j); }
  }

  // ----- the state of the buffer

  function MaskTriple(t: Triple, n: nat): Triple { Triple(Mask(t.a, n), Mask(t.b, n), Mask(t.c, n)) }

  function ShrTriple(t: Triple, n: nat): Triple { Triple(Shr(t.a, n), Shr(t.b, n), Shr(t.c, n)) }

  function ShlTriple(t: Triple, n: nat): Triple { Triple(Shl(t.a, n), Shl(t.b, n), Shl(t.c, n)) }

  function PlusTriple(t: Triple, u: Triple): Triple
    requires |t.a| == |u.a| && |t.b| == |u.b| && |t.c| == |u.c|
  {
    Triple(Plus(t.a, u.a), Plus(t.b, u.b), Plus(t.c, u.c))
  }

  /** The first bits of t are those of the given positions, all others are zero. */
  ghost predicate Holds(t: Triple, tags: seq<Tag>, fetched: seq<Triple>, size: nat) {
    && Sized(t, size) && |tags| <= size
    && forall i :: 0 <= i < size ==> Slot(t, i) == if i < |tags| then Origin(fetched, tags[i]) else NOTHING
  }

  ghost predicate AllMultiply(fetched: seq<Triple>, size: nat) {
    forall t :: 0 <= t < |fetched| ==> Sized(fetched[t], size) && Multiplies(fetched[t])
  }

  ghost predicate State(buffer: Triple, fetched: seq<Triple>, origin: seq<Tag>, delivered: seq<Tag>, size: nat) {
    && Holds(buffer, origin, fetched, size) && |origin| < size && AllMultiply(fetched, size)
    && Accounted(origin + delivered, |fetched|, size)
  }

  /** Masking keeps the first n bits, shifting drops them. */
  lemma TakeHolds(t: Triple, tags: seq<Tag>, fetched: seq<Triple>, n: nat, size: nat)
    requires Holds(t, tags, fetched, size) && n <= |tags|
    ensures Holds(MaskTriple(t, n), tags[..n], fetched, size)
    ensures Holds(ShrTriple(t, n), tags[n..], fetched, size)
  {
    forall i | 0 <= i < size
      ensures Slot(ShrTriple(t, n), i) == if i < |tags| - n then Origin(fetched, tags[n..][i]) else NOTHING
    {
      assert Slot(ShrTriple(t, n), i) == Slot(t, i + n);
    }
  }

  lemma FreshHolds(next: Triple, fetched: seq<Triple>, size: nat)
    requires Sized(next, size)
    ensures Holds(next, FreshTags(|fetched|, size), fetched + [next], size)
  {}

  lemma MoreFetched(t: Triple, tags: seq<Tag>, fetched: seq<Triple>, next: Triple, size: nat)
    requires Holds(t, tags, fetched, size) && forall i :: 0 <= i < |tags| ==> tags[i].number < |fetched|
    ensures Holds(t, tags, fetched + [next], size)
  {}

  /** Shifting a word up behind the bits of another appends. */
  lemma AppendHolds(t: Triple, tags: seq<Tag>, u: Triple, more: seq<Tag>, fetched: seq<Triple>, size: nat)
    requires Holds(t, tags, fetched, size) && Holds(u, more, fetched, size) && |tags| + |more| <= size
    ensures Holds(PlusTriple(t, ShlTriple(u, |tags|)), tags + more, fetched, size)
  {
    var r := PlusTriple(t, ShlTriple(u, |tags|));
    forall i | 0 <= i < size
      ensures Slot(r, i) == if i < |tags + more| then Origin(fetched, (tags + more)[i]) else NOTHING
    {
      var shifted := Slot(ShlTriple(u, |tags|), i);
      assert shifted == if i < |tags| then NOTHING else Slot(u, i - |tags|);
      assert Slot(r, i) == (Xor(Slot(t, i).0, shifted.0), Xor(Slot(t, i).1, shifted.1), Xor(Slot(t, i).2, shifted.2));
    }
  }

  lemma Numbers(tags: seq<Tag>, rest: seq<Tag>, count: nat, size: nat)
    requires Accounted(tags + rest, count, size)
    ensures forall i :: 0 <= i < |tags| ==> tags[i].number < count && tags[i].bit < size
  {
    forall i | 0 <= i < |tags| ensures tags[i].number < count && tags[i].bit < size {
      assert (tags + rest)[i] == tags[i];
      assert tags[i] in multiset(tags + rest);
    }
  }

  lemma HeldMultiplies(t: Triple, tags: seq<Tag>, fetched: seq<Triple>, size: nat)
    requires Holds(t, tags, fetched, size) && AllMultiply(fetched, size)
    ensures Multiplies(t)
  {
    forall i ensures Slot(t, i).2 == (Slot(t, i).0 && Slot(t, i).1) {
      if 0 <= i < |tags| && tags[i].number < |fetched| {
        assert Multiplies(fetched[tags[i].number]);
      }
    }
  }

  /** A request that the buffer can serve. */
  lemma ServeFromBuffer(buffer: Triple, fetched: seq<Triple>, origin: seq<Tag>, delivered: seq<Tag>, n: nat, size: nat)
    requires State(buffer, fetched, origin, delivered, size) && n <= |origin|
    ensures State(ShrTriple(buffer, n), fetched, origin[n..], delivered + origin[..n], size)
    ensures Holds(MaskTriple(buffer, n), origin[..n], fetched, size) && Multiplies(MaskTriple(buffer, n))
  {
    TakeHolds(buffer, origin, fetched, n, size);
    HeldMultiplies(MaskTriple(buffer, n), origin[..n], fetched, size);
    assert origin == origin[..n] + origin[n..];
    AccountedReorder(origin + delivered, origin[n..] + (delivered + origin[..n]), |fetched|, size);
  }

  /** A request that needs a new triple: its first n bits are handed out, the rest is appended. */
  lemma ServeFromNew(buffer: Triple, fetched: seq<Triple>, origin: seq<Tag>, delivered: seq<Tag>, next: Triple, n: nat, size: nat)
    requires State(buffer, fetched, origin, delivered, size) && |origin| < n <= size && Sized(next, size) && Multiplies(next)
    ensures var tags := FreshTags(|fetched|, size);
            && State(PlusTriple(buffer, ShlTriple(ShrTriple(next, n), |origin|)), fetched + [next],
                     origin + tags[n..], delivered + tags[..n], size)
            && Holds(MaskTriple(next, n), tags[..n], fetched + [next], size) && Multiplies(MaskTriple(next, n))
  {
    var tags, all := FreshTags(|fetched|, size), fetched + [next];
    FreshHolds(next, fetched, size);
    TakeHolds(next, tags, all, n, size);
    HeldMultiplies(MaskTriple(next, n), tags[..n], all, size);
    Numbers(origin, delivered, |fetched|, size);
    MoreFetched(buffer, origin, fetched, next, size);
    AppendHolds(buffer, origin, ShrTriple(next, n), tags[n..], all, size);
    AccountedFetch(origin + delivered, |fetched|, size);
    assert tags == tags[..n] + tags[n..];
    AccountedReorder(origin + delivered + tags, (origin + tags[n..]) + (delivered + tags[..n]), |fetched| + 1, size);
  }

  /** What a word triple holds, by plain indexing. */
  lemma HoldsMeans(t: Triple, tags: seq<Tag>, fetched: seq<Triple>, size: nat)
    requires Holds(t, tags, fetched, size) && AllMultiply(fetched, size)
    requires forall i :: 0 <= i < |tags| ==> tags[i].number < |fetched| && tags[i].bit < size
    ensures forall i :: 0 <= i < |tags| ==>
      && t.a[i] == fetched[tags[i].number].a[tags[i].bit]
      && t.b[i] == fetched[tags[i].number].b[tags[i].bit]
      && t.c[i] == fetched[tags[i].number].c[tags[i].bit]
    ensures forall i :: |tags| <= i < size ==> !t.a[i] && !t.b[i] && !t.c[i]
  {
    forall i | 0 <= i < size ensures Slot(t, i) == (t.a[i], t.b[i], t.c[i]) {}
  }

  lemma ProductMeans(t: Triple, size: nat)
    requires Sized(t, size) && Multiplies(t)
    ensures forall i :: 0 <= i < size ==> t.c[i] == (t.a[i] && t.b[i])
  {
    forall i | 0 <= i < size ensures t.c[i] == (t.a[i] && t.b[i]) {
      assert Slot(t, i) == (t.a[i], t.b[i], t.c[i]);
    }
  }

  /** The bits delivered since `from`, by plain indexing. */
  lemma Delivery(res: Triple, buffer: Triple, fetched: seq<Triple>, origin: seq<Tag>, delivered: seq<Tag>, from: nat, size: nat)
    requires State(buffer, fetched, origin, delivered, size) && from <= |delivered|
    requires Holds(res, delivered[from..], fetched, size) && Multiplies(res)
    ensures |res.a| == |res.b| == |res.c| == size && |delivered| - from <= size
    ensures forall i :: from <= i < |delivered| ==>
      var d := delivered[i];
      && d.number < |fetched| && d.bit < |fetched[d.number].a| == |fetched[d.number].b| == |fetched[d.number].c| == size
      && res.a[i - from] == fetched[d.number].a[d.bit]
      && res.b[i - from] == fetched[d.number].b[d.bit]
      && res.c[i - from] == fetched[d.number].c[d.bit]
    ensures forall k :: |delivered| - from <= k < size ==> !res.a[k] && !res.b[k] && !res.c[k]
    ensures forall k :: 0 <= k < size ==> res.c[k] == (res.a[k] && res.b[k])
  {
    hide Slot, Multiplies, Origin;
    var tags := delivered[from..];
    AccountedReorder(origin + delivered, tags + (origin + delivered[..from]), |fetched|, size) by {
      assert delivered == delivered[..from] + tags;
    }
    Numbers(tags, origin + delivered[..from], |fetched|, size);
    HoldsMeans(res, tags, fetched, size);
    ProductMeans(res, size);
    forall i | from <= i < |delivered|
      ensures var d := delivered[i];
              && d.number < |fetched| && d.bit < size
              && res.a[i - from] == fetched[d.number].a[d.bit]
              && res.b[i - from] == fetched[d.number].b[d.bit]
              && res.c[i - from] == fetched[d.number].c[d.bit]
    {
      assert delivered[i] == tags[i - from];
    }
  }

  class ShiftableTripleBuffer {
    const size: nat
    var buffer: Triple
    var bufferLeft: nat
    ghost var fetched: seq<Triple>
    ghost var origin: seq<Tag>      // of the buffered bits, in order
    ghost var delivered: seq<Tag>   // of all bits handed out, in order

    /** The buffered bits are those of `origin` and nothing stands above them, and every bit ever fetched
        is either buffered or delivered, once. */
    ghost predicate Valid()
      reads this
    {
      |origin| == bufferLeft && State(buffer, fetched, origin, delivered, size)
    }

    constructor (size: nat)
      requires size > 0
      ensures Valid() && this.size == size && bufferLeft == 0 && fetched == [] && delivered == []
    {
      this.size := size;
      bufferLeft := 0;
      var zero := seq(size, _ => false);
      buffer := Triple(zero, zero, zero);
      fetched, origin, delivered := [], [], [];
    }

    /** n bits: from the buffer if it holds as many, else from a newly fetched triple `next`, whose
        remaining bits go behind the buffered ones. */
    method GetTripleNoCount(n: nat, next: Triple) returns (res: Triple)
      requires Valid() && 0 < n <= size && Sized(next, size) && Multiplies(next)
      modifies this
      ensures Valid()
      ensures fetched == if n <= old(bufferLeft) then old(fetched) else old(fetched) + [next]
      ensures bufferLeft == if n <= old(bufferLeft) then old(bufferLeft) - n else old(bufferLeft) + size - n
      ensures |delivered| == |old(delivered)| + n && old(delivered) <= delivered
      ensures Holds(res, delivered[|old(delivered)|..], fetched, size) && Multiplies(res)
      ensures n <= old(bufferLeft) ==> delivered == old(delivered) + old(origin)[..n] && origin == old(origin)[n..]
      ensures n > old(bufferLeft) ==> delivered == old(delivered) + seq(n, k requires 0 <= k < n => Tag(|old(fetched)|, k))
      ensures n > old(bufferLeft) ==>
        origin == old(origin) + seq(size - n, k requires 0 <= k < size - n => Tag(|old(fetched)|, n + k))
      ensures |res.a| == |res.b| == |res.c| == size
      ensures forall i :: |old(delivered)| <= i < |delivered| ==>
        var d := delivered[i];
        && d.number < |fetched| && d.bit < |fetched[d.number].a| == |fetched[d.number].b| == |fetched[d.number].c| == size
        && res.a[i - |old(delivered)|] == fetched[d.number].a[d.bit]
        && res.b[i - |old(delivered)|] == fetched[d.number].b[d.bit]
        && res.c[i - |old(delivered)|] == fetched[d.number].c[d.bit]
      ensures forall k :: n <= k < size ==> !res.a[k] && !res.b[k] && !res.c[k]
      ensures forall k :: 0 <= k < size ==> res.c[k] == (res.a[k] && res.b[k])
    {
      hide Multiplies, AllMultiply, Accounted, Slot, Origin;
      if n <= bufferLeft {
        ServeFromBuffer(buffer, fetched, origin, delivered, n, size);
        res := MaskTriple(buffer, n);
        buffer := ShrTriple(buffer, n);
        bufferLeft := bufferLeft - n;
        delivered, origin := delivered + origin[..n], origin[n..];
        assert delivered[|old(delivered)|..] == old(origin)[..n];
      } else {
        ghost var tags := FreshTags(|fetched|, size);
        ServeFromNew(buffer, fetched, origin, delivered, next, n, size);
        var tmp := next;
        res := MaskTriple(tmp, n);
        buffer := PlusTriple(buffer, ShlTriple(ShrTriple(tmp, n), bufferLeft));
        bufferLeft := bufferLeft + size - n;
        fetched, delivered, origin := fetched + [next], delivered + tags[..n], origin + tags[n..];
        assert delivered[|old(delivered)|..] == tags[..n];
      }
      Delivery(res, buffer, fetched, origin, delivered, |old(delivered)|, size);
    }
  }

  /** In every state of the buffer no position has been handed out twice, and none handed out is still buffered. */
  lemma DeliveredOnce(b: ShiftableTripleBuffer)
    requires b.Valid()
    ensures forall i, j :: 0 <= i < j < |b.delivered| ==> b.delivered[i] != b.delivered[j]
    ensures forall i, j :: 0 <= i < |b.origin| && 0 <= j < |b.delivered| ==> b.origin[i] != b.delivered[j]
  {
    var k := |b.origin|;
    forall i, j | 0 <= i < j < |b.delivered| ensures b.delivered[i] != b.delivered[j] {
      AtMostOnce(b.origin + b.delivered, |b.fetched|, b.size, k + i, k + j);
    }
    forall i, j | 0 <= i < k && 0 <= j < |b.delivered| ensures b.origin[i] != b.delivered[j] {
      AtMostOnce(b.origin + b.delivered, |b.fetched|, b.size, i, k + j);
    }
  }
}
