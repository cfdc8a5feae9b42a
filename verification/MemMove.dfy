/** `memmove`: source and destination may overlap in either direction. */
module MemMove {

  /** `mem` with the `len` bytes at `src` also at `dest`. */
  function Moved(mem: seq<bv8>, dest: nat, src: nat, len: nat): seq<bv8>
    requires dest + len <= |mem| && src + len <= |mem|
  {
    mem[..dest] + mem[src..src + len] + mem[dest + len..]
  }

  /** The bytes dest+lo .. dest+hi have been copied, and nothing else has changed. */
  ghost predicate Copied(now: seq<bv8>, mem: seq<bv8>, dest: nat, src: nat, lo: nat, hi: nat)
    requires lo <= hi && dest + hi <= |mem| && src + hi <= |mem|
  {
    && |now| == |mem|
    && (forall k :: 0 <= k < |mem| && !(dest + lo <= k < dest + hi) ==> now[k] == mem[k])
    && now[dest + lo..dest + hi] == mem[src + lo..src + hi]
  }

  /** The next byte upwards has not been overwritten when the destination is below the source. */
  lemma CopyUp(now: seq<bv8>, mem: seq<bv8>, dest: nat, src: nat, hi: nat)
    requires dest + hi < |mem| && src + hi < |mem| && dest < src && Copied(now, mem, dest, src, 0, hi)
    ensures Copied(now[dest + hi := now[src + hi]], mem, dest, src, 0, hi + 1)
  {
    assert mem[src..src + hi + 1] == mem[src..src + hi] + [mem[src + hi]];
  }

  /** The next byte downwards has not been overwritten when the destination is not below the source. */
  lemma CopyDown(now: seq<bv8>, mem: seq<bv8>, dest: nat, src: nat, lo: nat, hi: nat)
    requires 0 < lo <= hi && dest + hi <= |mem| && src + hi <= |mem| && src <= dest && Copied(now, mem, dest, src, lo, hi)
    ensures Copied(now[dest + lo - 1 := now[src + lo - 1]], mem, dest, src, lo - 1, hi)
  {
    assert mem[src + lo - 1..src + hi] == [mem[src + lo - 1]] + mem[src + lo..src + hi];
    var next := now[dest + lo - 1 := now[src + lo - 1]];
    assert next[dest + lo - 1..dest + hi] == [now[src + lo - 1]] + now[dest + lo..dest + hi];
  }

  lemma AllCopied(now: seq<bv8>, mem: seq<bv8>, dest: nat, src: nat, len: nat)
    requires dest + len <= |mem| && src + len <= |mem| && Copied(now, mem, dest, src, 0, len)
    ensures now == Moved(mem, dest, src, len)
  {
    assert now == now[..dest] + now[dest..dest + len] + now[dest + len..];
    assert now[..dest] == mem[..dest] && now[dest + len..] == mem[dest + len..];
  }

  method Move(mem: array<bv8>, dest: nat, src: nat, len: nat) returns (r: nat)
    requires dest + len <= mem.Length && src + len <= mem.Length
    modifies mem
    ensures r == dest && mem[dest..dest + len] == old(mem[src..src + len])
    ensures forall k :: 0 <= k < mem.Length && !(dest <= k < dest + len) ==> mem[k] == old(mem[k])
    ensures mem[..] == Moved(old(mem[..]), dest, src, len)
  {
    if dest < src { MoveUp(mem, dest, src, len); } else { MoveDown(mem, dest, src, len); }
    AllCopied(mem[..], old(mem[..]), dest, src, len);
    r := dest;
  }

  /** The loop that runs upwards. */
  method MoveUp(mem: array<bv8>, dest: nat, src: nat, len: nat)
    requires dest + len <= mem.Length && src + len <= mem.Length && dest < src
    modifies mem
    ensures Copied(mem[..], old(mem[..]), dest, src, 0, len)
  {
    ghost var m0 := mem[..];
    var d, s, left := dest, src, len;
    while left > 0
      invariant 0 <= left <= len && d == dest + len - left && s == src + len - left
      invariant Copied(mem[..], m0, dest, src, 0, len - left)
    {
      CopyUp(mem[..], m0, dest, src, len - left);
      left := left - 1;
      mem[d] := mem[s];
      d, s := d + 1, s + 1;
    }
  }

  /** The loop that runs downwards. */
  method MoveDown(mem: array<bv8>, dest: nat, src: nat, len: nat)
    requires dest + len <= mem.Length && src + len <= mem.Length && src <= dest
    modifies mem
    ensures Copied(mem[..], old(mem[..]), dest, src, 0, len)
  {
    ghost var m0 := mem[..];
    var lasts, lastd, left := src + (len - 1), dest + (len - 1), len;
    while left > 0
      invariant 0 <= left <= len && lastd == dest + left - 1 && lasts == src + left - 1
      invariant Copied(mem[..], m0, dest, src, left, len)
    {
      CopyDown(mem[..], m0, dest, src, left, len);
      left := left - 1;
      mem[lastd] := mem[lasts];
      lastd, lasts := lastd - 1, lasts - 1;
    }
  }
}
