/** The cursor loop both listings run. The loop passes over the first
    `Offset` entries, then turns each entry's value into an item: an error
    that ends the listing, or a record to append, or a record the filter
    passes over. It stops as soon as the page holds `Limit` records. What an
    entry's value means is the step the listing supplies. */
module Pages {
  import opened Bytes
  import opened Errors
  import opened Buckets

  type Item = Result<Option<Bucket>>

  predicate Appends(x: Item)
  {
    x.Ok? && x.value.Some?
  }

  /** How many cursor entries the loop passes over before it examines any:
      a positive offset, else none. */
  function Skip(offset: int): nat
  {
    if offset > 0 then offset else 0
  }

  /** The cursor's entries after the first `n`. */
  function Drop<T>(s: seq<T>, n: nat): (r: seq<T>)
    ensures forall x | x in r :: x in s
    ensures n == 0 ==> r == s
  {
    if n >= |s| then [] else s[n..]
  }

  /** The step applied to each value, in cursor order. */
  function Items(vals: seq<Bytes>, step: Bytes -> Item): (r: seq<Item>)
    ensures |r| == |vals|
  {
    seq(|vals|, i requires 0 <= i < |vals| => step(vals[i]))
  }

  lemma ItemsUnfold(vals: seq<Bytes>, step: Bytes -> Item, i: nat)
    requires i < |vals|
    ensures Items(vals[i..], step) == [step(vals[i])] + Items(vals[i + 1..], step)
  {
    assert Items(vals[i..], step)[1..] == Items(vals[i + 1..], step);
  }

  /** What one item adds to the page. */
  function Appended(x: Item): seq<Bucket>
  {
    if Appends(x) then [x.value.value] else []
  }

  /** The records the items would append, in cursor order. */
  function Somes(items: seq<Item>): (r: seq<Bucket>)
    ensures |r| <= |items|
  {
    if items == [] then []
    else Appended(items[0]) + Somes(items[1..])
  }

  /** The first `n` elements, or all when there are fewer. */
  function Take(s: seq<Bucket>, n: int): (r: seq<Bucket>)
    ensures |r| == if 0 <= n <= |s| then n else if n < 0 then 0 else |s|
    ensures forall i | 0 <= i < |r| :: r[i] == s[i]
    ensures forall b | b in r :: b in s
    ensures n >= |s| ==> r == s
  {
    if n <= 0 then [] else if n >= |s| then s else s[..n]
  }

  lemma TakeAppend(head: seq<Bucket>, s: seq<Bucket>, n: int)
    requires |head| <= n
    ensures Take(head + s, n) == head + Take(s, n - |head|)
  {
    var l, r := Take(head + s, n), head + Take(s, n - |head|);
    assert |l| == |r|;
    assert forall i | 0 <= i < |l| :: l[i] == r[i];
  }

  /** The cursor loop from entry 0 on, with `acc` already on the page. */
  function Page(items: seq<Item>, limit: int, acc: seq<Bucket>): Result<seq<Bucket>>
    decreases |items|
  {
    if items == [] then Ok(acc)
    else
      match items[0]
      case Err(e) => Err(e)
      case Ok(x) =>
        var acc' := if x.Some? then acc + [x.value] else acc;
        if |acc'| >= limit then Ok(acc')
        else Page(items[1..], limit, acc')
  }

  /** One turn of the loop: the first entry ends the listing, or is appended
      or passed over, and the page is returned once it is full. */
  lemma PageCons(x: Item, rest: seq<Item>, limit: int, acc: seq<Bucket>)
    ensures Page([x] + rest, limit, acc) ==
            if x.Err? then Err(x.error)
            else
              var acc' := if x.value.Some? then acc + [x.value.value] else acc;
              if |acc'| >= limit then Ok(acc') else Page(rest, limit, acc')
  {
    assert ([x] + rest)[0] == x && ([x] + rest)[1..] == rest;
  }

  lemma PageUnfold(items: seq<Item>, limit: int, acc: seq<Bucket>)
    requires items != [] && items[0].Ok?
    ensures Page(items, limit, acc) ==
            var acc' := acc + Appended(items[0]);
            if |acc'| >= limit then Ok(acc') else Page(items[1..], limit, acc')
  {
    var x := items[0].value;
    assert (if x.Some? then acc + [x.value] else acc) == acc + Appended(items[0]);
  }

  /** An error is the first failing entry's, and ends the listing. */
  lemma {:induction false} PageError(items: seq<Item>, limit: int, acc: seq<Bucket>)
    ensures Page(items, limit, acc).Err? ==> Err(Page(items, limit, acc).error) in items
    decreases |items|
  {
    if items != [] && items[0].Ok? {
      var x := items[0].value;
      var acc' := if x.Some? then acc + [x.value] else acc;
      PageError(items[1..], limit, acc');
      assert forall y | y in items[1..] :: y in items;
    }
  }

  /** The page never grows past the limit, nor past one record when the
      limit is not positive. */
  lemma {:induction false} PageBound(items: seq<Item>, limit: int, acc: seq<Bucket>)
    ensures Page(items, limit, acc).Ok? ==>
              |Page(items, limit, acc).value| <= (if |acc| < limit then limit else |acc| + 1)
    decreases |items|
  {
    if items != [] && items[0].Ok? {
      var x := items[0].value;
      var acc' := if x.Some? then acc + [x.value] else acc;
      PageBound(items[1..], limit, acc');
    }
  }

  /** When every entry decodes and the page is not yet full, the loop appends
      the first records the entries yield, up to the limit. */
  lemma {:induction false} PageAllOk(items: seq<Item>, limit: int, acc: seq<Bucket>)
    requires forall i | 0 <= i < |items| :: items[i].Ok?
    requires |acc| < limit
    ensures Page(items, limit, acc) == Ok(acc + Take(Somes(items), limit - |acc|))
    decreases |items|
  {
    if items == [] {
      assert acc + [] == acc;
    } else {
      var head := Appended(items[0]);
      var acc' := acc + head;
      var s := Somes(items[1..]);
      PageUnfold(items, limit, acc);
      assert Somes(items) == head + s;
      TakeAppend(head, s, limit - |acc|);
      if |acc'| < limit {
        PageAllOk(items[1..], limit, acc');
        assert acc + (head + Take(s, limit - |acc'|)) == acc' + Take(s, limit - |acc'|);
      } else {
        assert head + [] == head;
      }
    }
  }

  /** Under a limit that is not positive the loop stops after the first entry
      it examines. */
  lemma PageFirstOnly(items: seq<Item>, limit: int)
    requires limit <= 0 && (items == [] || items[0].Ok?)
    ensures Page(items, limit, []) == Ok(if items == [] then [] else Appended(items[0]))
  {
    if items != [] {
      PageUnfold(items, limit, []);
      assert [] + Appended(items[0]) == Appended(items[0]);
    }
  }

  /** The cursor loop: `vals` are the values the cursor yields, in order. */
  method Drain(vals: seq<Bytes>, step: Bytes -> Item, limit: int, offset: int) returns (r: Result<seq<Bucket>>)
    ensures r == Page(Items(Drop(vals, Skip(offset)), step), limit, [])
  {
    ghost var skip := Skip(offset);
    ghost var spec := Page(Items(Drop(vals, skip), step), limit, []);
    var count := 0;
    var bs: seq<Bucket> := [];
    var i := 0;
    while i < |vals|
      invariant 0 <= i <= |vals|
      invariant count == if i < skip then i else skip
      invariant i <= skip ==> bs == []
      invariant i >= skip ==> spec == Page(Items(vals[i..], step), limit, bs)
    {
      if offset != 0 && count < offset {
        count := count + 1;
      } else {
        ItemsUnfold(vals, step, i);
        PageCons(step(vals[i]), Items(vals[i + 1..], step), limit, bs);
        var b := step(vals[i]);
        if b.Err? {
          return Err(b.error);
        }
        if b.value.Some? {
          bs := bs + [b.value.value];
        }
        if |bs| >= limit {
          return Ok(bs);
        }
      }
      i := i + 1;
    }
    r := Ok(bs);
  }
}
