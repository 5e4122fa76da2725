/** Key-value storage under a stack of write buffers (grug/types/src/buffer.rs). */
module AppStore {
  import opened Wrappers

  type Bytes = string

  type Store = map<Bytes, Bytes>

  datatype Op = Insert(value: Bytes) | Delete

  type Batch = map<Bytes, Op>

  /** A store after the operations of a batch. */
  function Apply(store: Store, batch: Batch): Store {
    map k | k in store.Keys + batch.Keys && (k in batch ==> batch[k].Insert?) ::
      if k in batch then batch[k].value else store[k]
  }

  /** The last thing done to a key decides what is read there. */
  lemma ReadAfter(store: Store, batch: Batch, key: Bytes)
    ensures var after := Apply(store, batch);
            if key !in batch then (key in after <==> key in store) && (key in store ==> after[key] == store[key])
            else
              match batch[key]
              case Insert(value) => key in after && after[key] == value
              case Delete => key !in after
  {
  }

  lemma ApplyTwice(store: Store, first: Batch, second: Batch)
    ensures Apply(Apply(store, first), second) == Apply(store, first + second)
  {
  }

  lemma ApplyNothing(store: Store)
    ensures Apply(store, map[]) == store
  {
  }

  /** What is seen through the buffers; the last buffer is the topmost. */
  function Through(base: Store, layers: seq<Batch>): Store {
    if |layers| == 0 then base else Apply(Through(base, layers[..|layers| - 1]), layers[|layers| - 1])
  }

  lemma EmptyBufferIsInvisible(base: Store, layers: seq<Batch>)
    ensures Through(base, layers + [map[]]) == Through(base, layers)
  {
    assert (layers + [map[]])[..|layers|] == layers;
  }

  /** A storage with the buffers opened on it and not yet closed. */
  class BufferedStorage {
    var base: Store
    var layers: seq<Batch>

    function View(): Store
      reads this
    {
      Through(base, layers)
    }

    /** Nothing below the topmost buffer is different from then, and no buffer was left open or closed. */
    ghost predicate OnlyTopChanged(base: Store, layers: seq<Batch>)
      reads this
    {
      && |this.layers| == |layers|
      && (|layers| > 0 ==> this.base == base && this.layers[..|layers| - 1] == layers[..|layers| - 1])
    }

    /** One empty buffer was opened since then, and apart from it only the topmost one is different. */
    ghost predicate OpenedOn(base: Store, layers: seq<Batch>)
      reads this
    {
      && |this.layers| == |layers| + 1 && |layers| > 0
      && this.layers[|layers|] == map[]
      && this.base == base && this.layers[..|layers| - 1] == layers[..|layers| - 1]
    }

    constructor (base: Store)
      ensures this.base == base && layers == [] && View() == base
    {
      this.base, layers := base, [];
    }

    /** Looks in the buffers from the top down, then in the base. */
    method Read(key: Bytes) returns (value: Option<Bytes>)
      ensures value == if key in View() then Some(View()[key]) else None
    {
      var n := |layers|;
      assert layers[..n] == layers;
      while n > 0
        invariant n <= |layers|
        invariant key in View() <==> key in Through(base, layers[..n])
        invariant key in View() ==> View()[key] == Through(base, layers[..n])[key]
      {
        assert layers[..n][..n - 1] == layers[..n - 1];
        if key in layers[n - 1] {
          return match layers[n - 1][key] case Insert(v) => Some(v) case Delete => None;
        }
        n := n - 1;
      }
      value := if key in base then Some(base[key]) else None;
    }

    /** Opens a buffer on top of everything. */
    method NewBuffer()
      modifies this`layers
      ensures View() == old(View())
      ensures layers == old(layers) + [map[]]
    {
      layers := layers + [map[]];
      ApplyNothing(Through(base, old(layers)));
      assert layers[..|layers| - 1] == old(layers);
    }

    /** Writes to the topmost buffer. */
    method Flush(batch: Batch)
      requires |layers| > 0
      modifies this`layers
      ensures View() == Apply(old(View()), batch)
      ensures OnlyTopChanged(base, old(layers))
      ensures layers == old(layers)[..|layers| - 1] + [old(layers)[|layers| - 1] + batch]
    {
      var n := |layers| - 1;
      ApplyTwice(Through(base, layers[..n]), layers[n], batch);
      layers := layers[..n] + [layers[n] + batch];
      assert layers[..n] == old(layers)[..n];
    }

    /** Closes the topmost buffer and writes what it holds one level down. */
    method Consume()
      requires |layers| > 0
      modifies this
      ensures View() == old(View())
      ensures layers == if |old(layers)| == 1 then []
                        else var n := |old(layers)| - 1; old(layers)[..n - 1] + [old(layers)[n - 1] + old(layers)[n]]
      ensures base == if |old(layers)| == 1 then old(View()) else old(base)
    {
      var n := |layers| - 1;
      var pending := layers[n];
      layers := layers[..n];
      if n == 0 {
        assert Through(base, layers) == base;
        base := Apply(base, pending);
      } else {
        Flush(pending);
        assert old(layers)[..n][..n - 1] == old(layers)[..n - 1];
      }
    }

    /** Moves what the topmost buffer holds one level down and leaves it empty. */
    method Commit()
      requires |layers| > 0
      modifies this
      ensures View() == old(View())
      ensures layers == if |old(layers)| == 1 then [map[]]
                        else var n := |old(layers)| - 1;
                             old(layers)[..n - 1] + [old(layers)[n - 1] + old(layers)[n], map[]]
      ensures base == if |old(layers)| == 1 then old(View()) else old(base)
    {
      Consume();
      NewBuffer();
    }

    /** Closes the topmost buffer and forgets what it holds. */
    method Drop()
      requires |layers| > 0
      modifies this`layers
      ensures layers == old(layers)[..|old(layers)| - 1]
      ensures View() == old(Through(base, layers[..|layers| - 1]))
    {
      layers := layers[..|layers| - 1];
    }
  }
}
