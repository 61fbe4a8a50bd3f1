// The frame allocator as the kernel runs it: linked list nodes and a buffer, changed in place.
// lib/kernel/memory/pagination/FrameAllocator.cpp, lib/kernel/memory/pagination/FrameAllocator.hh
module FrameAllocation {
  import opened FrameSpec
  import opened Options

  const SPARE := 16

  /** list_frame_t */
  class Node {
    var data: Region
    var next: Node?

    constructor (data: Region)
      ensures this.data == data && next == null
    {
      this.data, next := data, null;
    }
  }

  /** s are the nodes from `list` on. */
  ghost predicate IsList(list: Node?, s: seq<Node>)
    reads (set n | n in s)`next
  {
    if s == [] then list == null
    else list == s[0] && s[0] !in s[1..] && IsList(s[0].next, s[1..])
  }

  ghost function Values(s: seq<Node>): seq<Region>
    reads (set n | n in s)`data
  {
    if s == [] then [] else [s[0].data] + Values(s[1..])
  }

  class FrameAllocator {
    var qtd: int                      // qtd_buffer
    var available: Node?              // avaliableMemory
    const frameBuffer: array<int>
    ghost var nodes: seq<Node>

    ghost predicate Valid()
      reads this, frameBuffer, nodes
    {
      && frameBuffer.Length == MAX_BUFFER_FRAMES + SPARE
      && 0 <= qtd <= frameBuffer.Length && IsList(available, nodes)
    }

    ghost function View(): Alloc
      requires Valid()
      reads this, frameBuffer, nodes
    {
      Alloc(frameBuffer[..qtd], Values(nodes))
    }

    constructor ()
      ensures Valid() && View() == Alloc([], []) && fresh(frameBuffer) && nodes == []
    {
      qtd, available, nodes := 0, null, [];
      frameBuffer := new int[MAX_BUFFER_FRAMES + SPARE];
    }

    // ---------- The region list ----------

    /** list_push, recursive as in the kernel; nodes merged away are dropped. */
    method ListPush(list: Node?, item: Node, ghost s: seq<Node>) returns (r: Node, ghost t: seq<Node>)
      requires IsList(list, s) && item !in s
      modifies s, item
      ensures IsList(r, t) && forall n :: n in t ==> n in s || n == item
      ensures Values(t) == Push(old(Values(s)), old(item.data))
      decreases |s|
    {
      if list == null || list.data.base > item.data.base {
        item.next := list;
        r, t := item, [item] + s;
      } else {
        ghost var rest;
        list.next, rest := ListPush(list.next, item, s[1..]);
        rest := MergeNext(list, rest);
        r, t := list, [list] + rest;
      }
    }

    /** The merge loop of list_push behind one node. */
    method MergeNext(list: Node, ghost s: seq<Node>) returns (ghost rest: seq<Node>)
      requires IsList(list.next, s) && list !in s
      modifies list
      ensures IsList(list.next, rest) && list !in rest && forall n :: n in rest ==> n in s
      ensures [list.data] + Values(rest) == Merge(old(list.data), old(Values(s)))
    {
      rest := s;
      while list.next != null && list.data.base + list.data.size >= list.next.data.base
        invariant IsList(list.next, rest) && list !in rest && forall n :: n in rest ==> n in s
        invariant Merge(list.data, Values(rest)) == Merge(old(list.data), old(Values(s)))
        decreases |rest|
      {
        list.data := Region(list.data.base, (list.next.data.base + list.next.data.size) - list.data.base);
        list.next := list.next.next;
        rest := rest[1..];
      }
    }

    /** Adds up the region list. */
    method FreeMemory() returns (sum: int)
      requires Valid()
      ensures sum == Total(View().regions)
    {
      sum := 0;
      var ptr := available;
      ghost var rest := nodes;
      while ptr != null
        invariant IsList(ptr, rest)
        invariant sum + Total(Values(rest)) == Total(Values(nodes))
        decreases |rest|
      {
        sum := sum + ptr.data.size;
        ptr, rest := ptr.next, rest[1..];
      }
    }

    // ---------- The buffer ----------

    method AddFrameInBuffer(frame: int)
      requires Valid() && qtd < frameBuffer.Length
      modifies this`qtd, frameBuffer
      ensures Valid() && qtd == old(qtd) + 1
      ensures View() == Alloc(old(View().buffer) + [RoundDown(frame)], old(View().regions))
    {
      frameBuffer[qtd] := RoundDown(frame);
      qtd := qtd + 1;
    }

    method LoadBuffer() returns (ok: bool)
      requires Valid() && qtd <= MAX_BUFFER_FRAMES
      modifies this, frameBuffer, nodes
      ensures Valid() && View() == Load(old(View())) && qtd <= MAX_BUFFER_FRAMES
      ensures forall n :: n in nodes ==> n in old(nodes)
      ensures ok <==> View().buffer != []
    {
      while qtd < MAX_BUFFER_FRAMES && available != null
        invariant Valid() && qtd <= MAX_BUFFER_FRAMES
        invariant forall n :: n in nodes ==> n in old(nodes)
        invariant Load(View()) == Load(old(View()))
        decreases |nodes|, MAX_BUFFER_FRAMES - qtd
      {
        var space := available.data;
        if space.size < PAGE {
          DropHead();
        } else {
          assert available in nodes;
          MoveHead();
        }
      }
      ok := qtd > 0;
    }

    /** The emptied head leaves the list. */
    method DropHead()
      requires Valid() && available != null && available.data.size < PAGE && qtd < MAX_BUFFER_FRAMES
      modifies this`available, this`nodes
      ensures Valid() && qtd == old(qtd) && nodes == old(nodes)[1..] && |nodes| < |old(nodes)|
      ensures Load(View()) == Load(old(View()))
    {
      ghost var a := View();
      available := available.next;
      nodes := nodes[1..];
      assert View() == Alloc(a.buffer, a.regions[1..]);
    }

    /** The head's first page goes into the buffer. */
    method MoveHead()
      requires Valid() && available != null && available.data.size >= PAGE && qtd < MAX_BUFFER_FRAMES
      modifies this`qtd, frameBuffer, available`data
      ensures Valid() && qtd == old(qtd) + 1
      ensures Load(View()) == Load(old(View()))
    {
      ghost var a := View();
      AddFrameInBuffer(available.data.base);
      ghost var tail := nodes[1..];
      ghost var d := available.data;
      assert Values(nodes) == [d] + Values(tail);
      available.data := Region(available.data.base + PAGE, available.data.size - PAGE);
      assert Values(nodes) == [Rest(d)] + Values(tail);
      assert a.regions[1..] == Values(tail);
    }

    /** A region of free memory comes in: first into the buffer, then into the list. */
    method AddMemorySpace(space: Region)
      requires Valid() && qtd <= MAX_BUFFER_FRAMES && 0 <= space.base < TWO_64 && 0 <= space.size < TWO_64
      modifies this, frameBuffer, nodes
      ensures Valid() && View() == Add(old(View()), space) && qtd <= MAX_BUFFER_FRAMES
      ensures forall n :: n in nodes ==> n in old(nodes) || fresh(n)
    {
      hide Push, Fill, RoundDown;
      var rest := Region(RoundDown(space.base), RoundDown((space.size - space.base % PAGE) % TWO_64));
      ghost var a := View();
      rest := FillBuffer(rest);
      assert (View().buffer, rest) == Fill(a.buffer, Trimmed(space));
      if rest.size < PAGE {
        return;
      }
      PushRegion(rest);
    }

    /** What the buffer has no room for goes into the list. */
    method PushRegion(space: Region)
      requires Valid()
      modifies this`available, this`nodes, nodes
      ensures Valid() && qtd == old(qtd)
      ensures View() == Alloc(old(View()).buffer, Push(old(View()).regions, space))
      ensures forall n :: n in nodes ==> n in old(nodes) || fresh(n)
    {
      hide Push;
      var newObj := new Node(space);
      available, nodes := ListPush(available, newObj, nodes);
    }

    /** The loop of addMemorySpace. */
    method FillBuffer(space: Region) returns (rest: Region)
      requires Valid() && qtd <= MAX_BUFFER_FRAMES
      modifies this`qtd, frameBuffer
      ensures Valid() && qtd <= MAX_BUFFER_FRAMES && View().regions == old(View()).regions
      ensures (View().buffer, rest) == Fill(old(View()).buffer, space)
    {
      ghost var a := View();
      rest := space;
      while rest.size > PAGE && qtd < MAX_BUFFER_FRAMES
        invariant Valid() && qtd <= MAX_BUFFER_FRAMES
        invariant View().regions == a.regions && Fill(View().buffer, rest) == Fill(a.buffer, space)
        decreases rest.size
      {
        AddFrameInBuffer(rest.base);
        rest := Region(rest.base + PAGE, rest.size - PAGE);
      }
    }

    /** A frame, or None where the kernel would panic. */
    method Allocate() returns (frame: Option<int>)
      requires Valid() && qtd <= MAX_BUFFER_FRAMES
      modifies this, frameBuffer, nodes
      ensures Valid() && qtd <= MAX_BUFFER_FRAMES
      ensures (View(), frame) == FrameSpec.Allocate(old(View()))
      ensures forall n :: n in nodes ==> n in old(nodes)
    {
      if qtd <= MAX_BUFFER_FRAMES / 2 {
        var ok := LoadBuffer();
        if !ok {
          return None;
        }
      }
      ghost var b := View().buffer;
      qtd := qtd - 1;
      assert View().buffer == b[..|b| - 1];
      return Some(frameBuffer[qtd]);
    }
  }
}
