/**
 The status page stream of src/templates.cpp: one block of HTML for each plugin that has a status, read in pieces of any
 size. Rendering a block is left to the plugins; what is read is shown to be all blocks, in order.
 */
module PluginStatus {
  import opened Util

  /** A plugin: the block for its status, which is never empty, or none. */
  datatype Plugin = NoStatus | Status(block: string)

  predicate HaveBlocks(plugins: seq<Plugin>) {
    forall i :: 0 <= i < |plugins| && plugins[i].Status? ==> |plugins[i].block| > 0
  }

  /** The page from a plugin on. */
  function Page(plugins: seq<Plugin>, from: nat): string
    decreases |plugins| - from
  {
    if from >= |plugins| then ""
    else if plugins[from].Status? then plugins[from].block + Page(plugins, from + 1)
    else Page(plugins, from + 1)
  }

  /** The status blocks there are, in the order of the plugins. */
  function Blocks(plugins: seq<Plugin>): seq<string> {
    if |plugins| == 0 then []
    else
      var before, last := Blocks(plugins[..|plugins| - 1]), plugins[|plugins| - 1];
      if last.Status? then before + [last.block] else before
  }

  lemma {:induction false} PageBehind(plugins: seq<Plugin>, from: nat)
    requires from <= |plugins|
    ensures Flatten(Blocks(plugins[..from])) + Page(plugins, from) == Page(plugins, 0)
  {
    if from == 0 {
      NothingAdded(Page(plugins, 0));
    } else {
      PageBehind(plugins, from - 1);
      assert plugins[..from][..from - 1] == plugins[..from - 1];
      var before := Blocks(plugins[..from - 1]);
      if plugins[from - 1].Status? {
        FlattenSnoc(before, plugins[from - 1].block);
        Assoc(Flatten(before), plugins[from - 1].block, Page(plugins, from));
      }
    }
  }

  /** The page is all blocks, one behind the other. */
  lemma PageIsAllBlocks(plugins: seq<Plugin>)
    ensures Page(plugins, 0) == Flatten(Blocks(plugins))
  {
    PageBehind(plugins, |plugins|);
    assert plugins[..|plugins|] == plugins;
    NothingAdded(Flatten(Blocks(plugins)));
  }

  class PluginStatusStream {
    const plugins: seq<Plugin>
    var buffer: string
    var next: nat

    ghost predicate Valid()
      reads this
    {
      HaveBlocks(plugins) && next <= |plugins|
    }

    /** What has not been read yet. */
    ghost function Rest(): string
      reads this
    {
      buffer + Page(plugins, next)
    }

    constructor (plugins: seq<Plugin>)
      requires HaveBlocks(plugins)
      ensures Valid() && Rest() == Page(plugins, 0) && this.plugins == plugins
    {
      this.plugins, buffer, next := plugins, "", 0;
      new;
      NothingAdded(Page(plugins, 0));
      var n := FillBuffer();
    }

    /** Adds the next block to an empty buffer. */
    method FillBuffer() returns (n: nat)
      requires Valid() && |buffer| == 0
      modifies `buffer, `next
      ensures Valid() && Rest() == old(Rest()) && n == |buffer|
      ensures n == 0 <==> |old(Rest())| == 0
    {
      NothingAdded(Page(plugins, next));
      while next != |plugins|
        invariant Valid() && |buffer| == 0 && Page(plugins, next) == Page(plugins, old(next))
        decreases |plugins| - next
      {
        if plugins[next].Status? {
          buffer := buffer + plugins[next].block;
          assert buffer == plugins[next].block;
          next := next + 1;
          break;
        }
        next := next + 1;
      }
      if |buffer| == 0 {
        NothingAdded(Page(plugins, next));
      }
      n := |buffer|;
    }

    method ReadBytes(data: array<char>) returns (n: nat)
      requires Valid()
      modifies `buffer, `next, data
      ensures Valid() && n <= data.Length
      ensures old(Rest()) == data[..n] + Rest()
      ensures n == 0 <==> data.Length == 0 || |old(Rest())| == 0
      ensures data[n..] == old(data[n..])
    {
      if |buffer| == 0 {
        var filled := FillBuffer();
        if filled == 0 {
          NothingAdded(Rest());
          return 0;
        }
      }
      n := Min(data.Length, |buffer|);
      ghost var before, page := buffer, Page(plugins, next);
      for i := 0 to n
        modifies data
        invariant data[..i] == buffer[..i] && data[n..] == old(data[n..])
      {
        data[i] := buffer[i];
      }
      buffer := buffer[n..];
      assert before == data[..n] + buffer;
      Assoc(data[..n], buffer, page);
    }
  }

  /** Reads of any sizes give the page in order, all of it after enough reads of at least one byte. */
  method ReadPage(plugins: seq<Plugin>, sizes: seq<nat>) returns (read: string)
    requires HaveBlocks(plugins)
    ensures read <= Page(plugins, 0)
    ensures (forall size :: size in sizes ==> size > 0) && |sizes| >= |Page(plugins, 0)| ==> read == Page(plugins, 0)
  {
    var stream := new PluginStatusStream(plugins);
    read := "";
    ghost var rest := stream.Rest();
    NothingAdded(rest);
    for i := 0 to |sizes|
      invariant fresh(stream) && stream.Valid() && rest == stream.Rest() && Page(plugins, 0) == read + rest
      invariant (forall size :: size in sizes ==> size > 0) ==> |read| >= i || |rest| == 0
    {
      assert sizes[i] in sizes;
      var data := new char[sizes[i]];
      var n := stream.ReadBytes(data);
      Assoc(read, data[..n], stream.Rest());
      read, rest := read + data[..n], stream.Rest();
    }
    NothingAdded(read);
  }
}
