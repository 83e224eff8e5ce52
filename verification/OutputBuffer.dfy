/** Output buffers that pass on at most a fixed number of elements and count them all. */
module OutputBuffer {

  const BUFFER_SIZE: nat := 256

  function Min(a: nat, b: nat): nat
  {
    if a < b then a else b
  }

  /** The elements a limit lets through. */
  function First<T>(limit: nat, s: seq<T>): (r: seq<T>)
    ensures |r| == Min(limit, |s|) && r <= s
  {
    s[..Min(limit, |s|)]
  }

  /** Going on from what has been let through already. */
  lemma FirstOfMore<T>(limit: nat, s: seq<T>, more: seq<T>)
    ensures First(limit, s + more) == First(limit, s) + First(if limit > |s| then limit - |s| else 0, more)
  {
  }

  /** A buffer of 256 elements in front of an output iterator, with fixed_buffer_traits. */
  class IteratorBuffer<T(0)> {
    var count: nat  // count_ of the traits: what has been flushed
    const limit: nat
    const data: array<T>
    var size: nat
    var out: seq<T>  // what the output iterator has received
    ghost var written: seq<T>  // everything put into the buffer so far

    ghost predicate Valid()
      reads this, data
    {
      && data.Length == BUFFER_SIZE && size <= BUFFER_SIZE
      && |written| == count + size
      && data[..size] == written[count..]
      && out == First(limit, written[..count])
    }

    constructor (limit: nat)
      ensures Valid() && fresh(data) && written == [] && this.limit == limit
    {
      count, this.limit, size, out, written := 0, limit, 0, [], [];
      data := new T[BUFFER_SIZE];
    }

    /** limit: counts the elements and says how many of them may be passed on. */
    method Limit(n: nat) returns (r: nat)
      modifies this`count
      ensures r == Min(n, if limit > old(count) then limit - old(count) else 0)
      ensures count == old(count) + n
    {
      var left := if limit > count then limit - count else 0;
      count := count + n;
      r := if n < left then n else left;
    }

    method Flush()
      requires Valid()
      modifies this`count, this`size, this`out
      ensures Valid() && size == 0 && count == |written|
    {
      var n := size;
      size := 0;
      FirstOfMore(limit, written[..count], data[..n]);
      assert written[..count] + data[..n] == written;
      var passed := Limit(n);
      out := out + data[..passed];
      assert written[..count] == written;
      assert data[..n][..passed] == data[..passed];
    }

    method Grow()
      requires Valid()
      modifies this`count, this`size, this`out
      ensures Valid() && size == if old(size) == BUFFER_SIZE then 0 else old(size)
    {
      if size == BUFFER_SIZE {
        Flush();
      }
    }

    /** try_reserve: afterwards there is room for at least one more element, if for none
        more was asked. */
    method TryReserve(newCapacity: nat)
      requires Valid()
      modifies this`count, this`size, this`out
      ensures Valid() && (newCapacity > old(size) ==> size < BUFFER_SIZE)
    {
      if newCapacity > BUFFER_SIZE {
        Grow();
      }
    }

    method PushBack(value: T)
      requires Valid()
      modifies this, data
      ensures Valid() && written == old(written) + [value]
    {
      TryReserve(size + 1);
      data[size] := value;
      size := size + 1;
      written := written + [value];
    }

    /** append copies as much as there is room for, flushes, and goes on. */
    method Append(s: seq<T>)
      requires Valid()
      modifies this, data
      ensures Valid() && written == old(written) + s
    {
      var begin := 0;
      while begin != |s|
        invariant 0 <= begin <= |s| && Valid() && written == old(written) + s[..begin]
        decreases |s| - begin
      {
        var n := |s| - begin;
        TryReserve(size + n);
        var free := BUFFER_SIZE - size;
        if free < n {
          n := free;
        }
        CopyIn(s, begin, n);
        assert s[..begin + n] == s[..begin] + s[begin..begin + n];
        begin := begin + n;
      }
    }

    method CopyIn(s: seq<T>, begin: nat, n: nat)
      requires Valid() && begin + n <= |s| && size + n <= BUFFER_SIZE
      modifies this`size, this`written, data
      ensures Valid() && written == old(written) + s[begin..begin + n]
    {
      ghost var before := data[..size];
      forall i | 0 <= i < n {
        data[size + i] := s[begin + i];
      }
      size := size + n;
      written := written + s[begin..begin + n];
      assert data[..size] == before + s[begin..begin + n];
    }

    /** count: flushed or not. */
    function Count(): (n: nat)
      requires Valid()
      reads this, data
      ensures n == |written|
    {
      count + size
    }

    /** out: after a last flush the iterator has received the first elements up to the limit. */
    method Out() returns (r: seq<T>)
      requires Valid()
      modifies this`count, this`size, this`out
      ensures Valid() && r == out == First(limit, written)
    {
      Flush();
      assert written[..count] == written;
      r := out;
    }
  }

  /** The calls a formatter makes. */
  datatype Operation<T> = Push(value: T) | AppendAll(values: seq<T>)

  function Contents<T>(operations: seq<Operation<T>>): seq<T>
  {
    if operations == [] then []
    else
      (match operations[0]
       case Push(v) => [v]
       case AppendAll(vs) => vs) + Contents(operations[1..])
  }

  lemma {:induction false} ContentsSnoc<T>(operations: seq<Operation<T>>, last: Operation<T>)
    ensures Contents(operations + [last]) == Contents(operations) + Contents([last])
  {
    if operations == [] {
      assert operations + [last] == [last];
    } else {
      ContentsSnoc(operations[1..], last);
      assert (operations + [last])[1..] == operations[1..] + [last];
    }
  }

  /** Any run of calls: the iterator receives exactly the first elements up to the limit, in
      order, and the count is that of all elements. */
  method Deliver<T(0)>(limit: nat, operations: seq<Operation<T>>) returns (r: seq<T>, count: nat)
    ensures r == First(limit, Contents(operations)) && count == |Contents(operations)|
  {
    var buffer := new IteratorBuffer<T>(limit);
    for i := 0 to |operations|
      invariant buffer.Valid() && fresh(buffer) && fresh(buffer.data) && buffer.limit == limit
      invariant buffer.written == Contents(operations[..i])
    {
      ContentsSnoc(operations[..i], operations[i]);
      assert operations[..i + 1] == operations[..i] + [operations[i]];
      match operations[i]
      case Push(v) => buffer.PushBack(v);
      case AppendAll(vs) => buffer.Append(vs);
    }
    assert operations[..|operations|] == operations;
    count := buffer.Count();
    r := buffer.Out();
  }

  /** The specialisation for a pointer: elements go straight to their place while there is
      room; then, or once out has been called, into a local buffer that is only counted. */
  class PointerBuffer<T(0)> {
    var count: nat
    const limit: nat
    const target: array<T>
    const data: array<T>
    var inPlace: bool  // ptr_ is out_ rather than data_
    var position: nat  // how far out_ has moved
    var size: nat
    var capacity: nat
    ghost var written: seq<T>

    ghost predicate Valid()
      reads this, data, target
    {
      && data != target && data.Length == BUFFER_SIZE && limit <= target.Length
      && size <= capacity && |written| == count + size
      && (if inPlace then position == 0 == count && capacity == limit && target[..size] == written
          else capacity == BUFFER_SIZE && position <= count && position <= limit
               && target[..position] == written[..position])
    }

    constructor (target: array<T>, limit: nat)
      requires limit <= target.Length
      ensures Valid() && fresh(data) && written == [] && inPlace
      ensures this.limit == limit && this.target == target
    {
      this.target, this.limit := target, limit;
      count, inPlace, position, size, capacity, written := 0, true, 0, 0, limit, [];
      data := new T[BUFFER_SIZE];
    }

    method Limit(n: nat) returns (r: nat)
      modifies this`count
      ensures r == Min(n, if limit > old(count) then limit - old(count) else 0)
      ensures count == old(count) + n
    {
      var left := if limit > count then limit - count else 0;
      count := count + n;
      r := if n < left then n else left;
    }

    method Flush()
      requires Valid()
      modifies this`count, this`inPlace, this`position, this`size, this`capacity
      ensures Valid() && !inPlace && size == 0
      ensures position == if old(inPlace) then |written| else old(position)
    {
      var n := Limit(size);
      if inPlace {
        position := position + n;
        inPlace, capacity := false, BUFFER_SIZE;
      }
      size := 0;
    }

    method Grow()
      requires Valid()
      modifies this`count, this`inPlace, this`position, this`size, this`capacity
      ensures Valid() && size < capacity
      ensures if old(size) == old(capacity) then !inPlace && position == if old(inPlace) then limit else old(position)
              else inPlace == old(inPlace) && position == old(position)
    {
      if size == capacity {
        Flush();
      }
    }

    method TryReserve(newCapacity: nat)
      requires Valid() && newCapacity > size
      modifies this`count, this`inPlace, this`position, this`size, this`capacity
      ensures Valid() && size < capacity
      ensures Progress()
    {
      if newCapacity > capacity {
        Grow();
      }
    }

    method CopyIn(values: seq<T>)
      requires Valid() && size + |values| <= capacity
      modifies this`size, this`written, data, target
      ensures Valid() && written == old(written) + values
    {
      ghost var before := target[..];
      if inPlace {
        forall k | 0 <= k < |values| {
          target[size + k] := values[k];
        }
        assert target[..size + |values|] == before[..size] + values;
      } else {
        forall k | 0 <= k < |values| {
          data[size + k] := values[k];
        }
        assert target[..] == before;
        assert target[..position] == before[..position] && (written + values)[..position] == written[..position];
      }
      size := size + |values|;
      written := written + values;
    }

    /** Still in place, or closed before or by reaching the limit. */
    twostate predicate Progress()
      reads this
    {
      if inPlace then old(inPlace) else position == if old(inPlace) then limit else old(position)
    }

    method PushBack(value: T)
      requires Valid()
      modifies this, data, target
      ensures Valid() && written == old(written) + [value] && Progress()
    {
      TryReserve(size + 1);
      CopyIn([value]);
    }

    method Append(s: seq<T>)
      requires Valid()
      modifies this, data, target
      ensures Valid() && written == old(written) + s && Progress()
    {
      var begin := 0;
      while begin != |s|
        invariant 0 <= begin <= |s| && Valid() && written == old(written) + s[..begin] && Progress()
        decreases |s| - begin
      {
        var n := |s| - begin;
        TryReserve(size + n);
        var free := capacity - size;
        if free < n {
          n := free;
        }
        CopyIn(s[begin..begin + n]);
        assert s[..begin + n] == s[..begin] + s[begin..begin + n];
        begin := begin + n;
      }
    }

    function Count(): (n: nat)
      requires Valid()
      reads this, data, target
      ensures n == |written|
    {
      count + size
    }

    /** out: the end of what has been delivered. */
    method Out() returns (r: nat)
      requires Valid()
      modifies this`count, this`inPlace, this`position, this`size, this`capacity
      ensures Valid() && !inPlace && r == position == if old(inPlace) then |written| else old(position)
    {
      Flush();
      r := position;
    }
  }

  lemma NoContents<T>()
    ensures Contents<T>([]) == []
  {
  }

  method PerformAll<T(0)>(buffer: PointerBuffer<T>, operations: seq<Operation<T>>)
    requires buffer.Valid()
    modifies buffer, buffer.data, buffer.target
    ensures buffer.Valid() && buffer.written == old(buffer.written) + Contents(operations) && buffer.Progress()
  {
    ghost var before := buffer.written;
    NoContents<T>();
    assert operations[..0] == [];
    hide Contents;
    for i := 0 to |operations|
      invariant buffer.Valid() && buffer.written == before + Contents(operations[..i]) && buffer.Progress()
    {
      ContentsSnoc(operations[..i], operations[i]);
      assert operations[..i + 1] == operations[..i] + [operations[i]];
      Perform(buffer, operations[i]);
    }
    assert operations[..|operations|] == operations;
  }

  method Perform<T(0)>(buffer: PointerBuffer<T>, operation: Operation<T>)
    requires buffer.Valid()
    modifies buffer, buffer.data, buffer.target
    ensures buffer.Valid() && buffer.written == old(buffer.written) + Contents([operation]) && buffer.Progress()
  {
    match operation
    case Push(v) => buffer.PushBack(v);
    case AppendAll(vs) => buffer.Append(vs);
  }

  /** A run of calls closed by out delivers exactly the first elements up to the limit. */
  method DeliverInPlace<T(0)>(target: array<T>, limit: nat, operations: seq<Operation<T>>) returns (r: nat, count: nat)
    requires limit <= target.Length
    modifies target
    ensures r == Min(limit, |Contents(operations)|) && count == |Contents(operations)|
    ensures target[..r] == First(limit, Contents(operations))
  {
    var buffer := new PointerBuffer<T>(target, limit);
    PerformAll(buffer, operations);
    count := buffer.Count();
    r := buffer.Out();
  }

  /** What is written after a call of out is counted but lost, even below the limit: what
      should have been delivered is so exactly if nothing was written then or the limit had
      been reached before. */
  method LostAfterOut<T(0)>(target: array<T>, limit: nat, before: seq<Operation<T>>, after: seq<Operation<T>>)
    returns (r: nat, count: nat)
    requires limit <= target.Length
    modifies target
    ensures r == Min(limit, |Contents(before)|)
    ensures count == |Contents(before)| + |Contents(after)|
    ensures target[..r] == First(limit, Contents(before))
    ensures target[..r] == First(limit, Contents(before) + Contents(after))
            <==> Contents(after) == [] || limit <= |Contents(before)|
  {
    var buffer := new PointerBuffer<T>(target, limit);
    PerformAll(buffer, before);
    var first := buffer.Out();
    PerformAll(buffer, after);
    count := buffer.Count();
    r := buffer.Out();
    var b, a := Contents(before), Contents(after);
    hide Contents;
    assert (b + a)[..r] == b[..r];
  }
}
