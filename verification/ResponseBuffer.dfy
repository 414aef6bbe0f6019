/** Accumulation of a node's reply in a growing buffer with a hard limit. */
module ResponseBuffer {
  import opened Chunks

  const MAX_RESPONSE := 4 * 1024 * 1024
  const INITIAL_SIZE := 4096

  /** How much of a reply is kept: all of it, or what fits with a terminator. */
  function KeptLength(n: nat): (k: nat)
    ensures k <= n
  {
    if n < MAX_RESPONSE then n else MAX_RESPONSE - 1
  }

  /** The first of the sizes `size`, 2 * `size`, 4 * `size`, ... that is large enough. */
  function Doubled(size: nat, needed: nat): (d: nat)
    requires size > 0
    ensures d >= needed && d >= size && (d > size ==> d < 2 * needed)
    decreases needed - size
  {
    if size >= needed then size else Doubled(2 * size, needed)
  }

  class Response {
    var buf: array<char>
    var len: nat
    var input: string       // bytes the event buffer still holds
    ghost var received: string

    /** The buffer holds exactly the kept prefix of what was received; the rest is still in the event
        buffer. Once there is a buffer there is room for a terminator, and it is there. */
    ghost predicate Valid()
      reads this, buf
    {
      && buf.Length <= MAX_RESPONSE
      && (if buf.Length == 0 then len == 0 && received == "" else len < buf.Length && buf[len] == '\0')
      && len == KeptLength(|received|)
      && buf[..len] == received[..len] && input == received[len..]
    }

    constructor ()
      ensures Valid() && fresh(buf) && received == ""
    {
      buf := new char[0];
      len, input, received := 0, "", "";
    }

    /** The next capacity: doubled until the wanted size fits, then limited. */
    static method NextCapacity(capacity: nat, needed: nat) returns (next: nat)
      requires capacity < needed
      ensures next <= MAX_RESPONSE
      ensures needed <= next || next == MAX_RESPONSE
      ensures capacity <= MAX_RESPONSE ==> capacity <= next
      ensures var doubled := Doubled(if capacity > 0 then capacity * 2 else 4096, needed);
              next == if doubled > 4194304 then 4194304 else doubled
    {
      next := if capacity > 0 then capacity * 2 else INITIAL_SIZE;
      while next < needed
        invariant next > 0 && next >= capacity
        invariant Doubled(next, needed) == Doubled(if capacity > 0 then capacity * 2 else INITIAL_SIZE, needed)
        decreases needed - next
      {
        next := next * 2;
      }
      if next > MAX_RESPONSE {
        next := MAX_RESPONSE;
      }
    }

    /** Reallocation keeps the bytes in use. */
    method Grow(capacity: nat)
      requires len <= buf.Length && len < capacity
      modifies this`buf
      ensures fresh(buf) && buf.Length == capacity && buf[..len] == old(buf[..len])
    {
      var bigger := new char[capacity];
      for i := 0 to len
        modifies bigger
        invariant bigger[..i] == buf[..i]
      {
        bigger[i] := buf[i];
      }
      buf := bigger;
    }

    /** Move `n` bytes from the event buffer behind the bytes in use, and terminate them. */
    method Append(n: nat)
      requires n <= |input| && len + n < buf.Length
      modifies this`len, this`input, buf
      ensures len == old(len) + n && input == old(input)[n..]
      ensures buf[..len] == old(buf[..len]) + old(input)[..n] && buf[len] == '\0'
    {
      for i := 0 to n
        modifies buf
        invariant buf[..len + i] == old(buf[..len]) + input[..i]
      {
        buf[len + i] := input[i];
      }
      input := input[n..];
      len := len + n;
      buf[len] := '\0';
    }

    /** Grow the buffer if it is too small; without memory it stays as it is. */
    method Reserve(needed: nat, memory: bool) returns (ok: bool)
      requires len <= buf.Length <= MAX_RESPONSE && len + 1 < needed && len + 1 < MAX_RESPONSE
      modifies this`buf
      ensures !ok <==> !memory && needed > old(buf.Length)
      ensures ok ==> buf.Length <= MAX_RESPONSE && (needed <= buf.Length || buf.Length == MAX_RESPONSE)
      ensures len <= buf.Length && buf[..len] == old(buf[..len])
      ensures fresh(buf) || buf == old(buf)
      ensures !ok ==> buf == old(buf)
    {
      if needed > buf.Length {
        var capacity := NextCapacity(buf.Length, needed);
        if !memory {
          return false;
        }
        Grow(capacity);
      }
      return true;
    }

    /** Make room for `needed` bytes, as far as there may be any, and move `n` of them into the buffer. */
    method Take(needed: nat, n: nat, memory: bool) returns (ok: bool)
      requires len <= buf.Length <= MAX_RESPONSE && 0 < n <= |input|
      requires len + n < needed && len + n < MAX_RESPONSE
      modifies this`buf, this`len, this`input, buf
      ensures !ok <==> !memory && needed > old(buf.Length)
      ensures !ok ==> buf == old(buf) && len == old(len)
      ensures ok ==> len == old(len) + n < buf.Length <= MAX_RESPONSE && input == old(input)[n..]
      ensures ok ==> buf[..len] == old(buf[..len]) + old(input)[..n] && buf[len] == '\0'
      ensures fresh(buf) || buf == old(buf)
    {
      ok := Reserve(needed, memory);
      if ok {
        Append(n);
      }
    }

    /** The read callback. It fails only if memory is wanted and not available. */
    method OnRead(chunk: string, memory: bool) returns (ok: bool)
      requires Valid()
      modifies this, buf
      ensures received == old(received) + chunk
      ensures !ok <==> (!memory && old(input) + chunk != "" && old(len) < MAX_RESPONSE - 1
                        && old(len) + |old(input) + chunk| + 1 > old(buf.Length))
      ensures !ok ==> buf == old(buf) && len == old(len)
      ensures ok ==> Valid() && (received != "" ==> len < buf.Length)
      ensures fresh(buf) || buf == old(buf)
    {
      ghost var whole := received + chunk;
      assert whole[..len] == received[..len] && whole[len..] == input + chunk;
      input, received := input + chunk, whole;
      var avail := |input|;
      if avail == 0 {
        return true;
      }
      var needed := len + avail + 1;
      if needed > MAX_RESPONSE {
        avail := MAX_RESPONSE - len - 1;
        if avail == 0 {
          return true;
        }
      }
      Rejoin(whole, len, avail);
      ok := Take(needed, avail, memory);
    }
  }

  lemma Rejoin(s: string, k: nat, n: nat)
    requires k + n <= |s|
    ensures s[..k] + s[k..][..n] == s[..k + n] && s[k..][n..] == s[k + n..]
  {
  }

  /** For every cutting of a reply into chunks, the buffer ends up with the kept prefix. */
  method Accumulate(chunks: seq<string>) returns (text: string)
    ensures var whole := Flatten(chunks); text == if |whole| <= 4194303 then whole else whole[..4194303]
  {
    var response := new Response();
    for k := 0 to |chunks|
      invariant response.Valid() && fresh(response) && fresh(response.buf)
      invariant response.received == Flatten(chunks[..k])
    {
      FlattenSnoc(chunks, k);
      var ok := response.OnRead(chunks[k], true);
    }
    assert chunks[..|chunks|] == chunks;
    text := response.buf[..response.len];
  }
}
