/**
 Copying between the emulated kernel and guest memory, page by page through the
 translation of guest addresses to host addresses, against the specification
 that does it byte by byte.
 */
module UserCopy {
  import opened Common
  import opened PageMap

  type Host = map<int, byte>

  const EFAULT: int := 14

  /** Host memory is there behind every mapped page. */
  ghost predicate Solid(table: Table, host: Host) {
    forall g {:trigger Translate(table, g)} :: Translate(table, g).Some? ==> Translate(table, g).value in host
  }

  // ---- byte by byte ----------------------------------------------------

  /** The bytes from g on, at most n, up to the first that is not mapped. */
  ghost function Readable(table: Table, host: Host, g: int, n: nat): (b: seq<byte>)
    requires Solid(table, host)
    ensures |b| <= n
    decreases n
  {
    if n == 0 || Translate(table, g) == None then []
    else [host[Translate(table, g).value]] + Readable(table, host, g + 1, n - 1)
  }

  /** Host memory after writing bytes from g on, up to the first address that is not mapped. */
  ghost function Written(table: Table, host: Host, g: int, b: seq<byte>): (h: Host)
    decreases |b|
  {
    if b == [] || Translate(table, g) == None then host
    else Written(table, host[Translate(table, g).value := b[0]], g + 1, b[1..])
  }

  /** How many bytes from g on, at most n, are mapped. */
  ghost function Reach(table: Table, g: int, n: nat): (k: nat)
    ensures k <= n
    decreases n
  {
    if n == 0 || Translate(table, g) == None then 0 else 1 + Reach(table, g + 1, n - 1)
  }

  /** The length of a guest string with its NUL; 0 at a fault before the NUL, and n + 1 if there is none in n bytes. */
  ghost function StringLength(table: Table, host: Host, g: int, n: nat): (r: nat)
    requires Solid(table, host)
    decreases n
  {
    if n == 0 then 1
    else if Translate(table, g) == None then 0
    else if host[Translate(table, g).value] == 0 then 1
    else
      var r := StringLength(table, host, g + 1, n - 1);
      if r == 0 then 0 else r + 1
  }

  // ---- a page at a time ------------------------------------------------

  /** The bytes from g to the end of its page. */
  function Room(g: int): (r: nat)
    ensures 0 < r <= PAGE && r == PageOf(g) + PAGE - g
  {
    (g + PAGE) / PAGE * PAGE - g
  }

  /** Inside a page, translation is an offset. */
  lemma SamePage(table: Table, g: int, i: int)
    requires 0 <= i < Room(g)
    ensures PageOf(g + i) == PageOf(g)
    ensures Translate(table, g).Some? ==> Translate(table, g + i) == Some(Translate(table, g).value + i)
    ensures Translate(table, g) == None ==> Translate(table, g + i) == None
  {
    PageSame(g, i);
    hide PageOf, Room;
  }

  lemma PageSame(g: int, i: int)
    requires 0 <= i < Room(g)
    ensures PageOf(g + i) == PageOf(g)
  {
  }

  /** Host bytes [h, h + n). */
  ghost predicate There(host: Host, h: int, n: nat) {
    forall k :: h <= k < h + n ==> k in host
  }

  function Chunk(host: Host, h: int, n: nat): (b: seq<byte>)
    requires There(host, h, n)
    ensures |b| == n
  {
    seq(n, i requires 0 <= i < n => host[h + i])
  }

  /** memcpy to host address h. */
  function Filled(host: Host, h: int, b: seq<byte>): (host': Host) {
    map k | k in host :: if h <= k < h + |b| then b[k - h] else host[k]
  }

  lemma ChunkThere(table: Table, host: Host, g: int, n: nat)
    requires Solid(table, host) && Translate(table, g).Some? && n <= Room(g)
    ensures There(host, Translate(table, g).value, n)
  {
    hide Translate, Room, PageOf;
    var h := Translate(table, g).value;
    forall k | h <= k < h + n
      ensures k in host
    {
      SamePage(table, g, k - h);
    }
  }

  /** Reading a chunk inside a page is reading its bytes one by one. */
  lemma {:induction false} ReadChunk(table: Table, host: Host, g: int, n: nat, size: nat)
    requires Solid(table, host) && Translate(table, g).Some? && size <= Room(g) && size <= n
    ensures There(host, Translate(table, g).value, size)
    ensures Readable(table, host, g, n) == Chunk(host, Translate(table, g).value, size) + Readable(table, host,
            g + size, n - size)
    decreases size
  {
    hide Translate, Room, PageOf;
    ChunkThere(table, host, g, size);
    var h := Translate(table, g).value;
    if size > 0 {
      ReadChunk(table, host, g, n, size - 1);
      SamePage(table, g, size - 1);
      assert Chunk(host, h, size) == Chunk(host, h, size - 1) + [host[h + size - 1]];
      var rest := Readable(table, host, g + size, n - size);
      assert Readable(table, host, g + size - 1, n - (size - 1)) == [host[h + size - 1]] + rest;
      assert (Chunk(host, h, size - 1) + [host[h + size - 1]]) + rest
          == Chunk(host, h, size - 1) + ([host[h + size - 1]] + rest);
    }
  }

  /** Writing a chunk inside a page is writing its bytes one by one. */
  lemma {:induction false} WriteChunk(table: Table, host: Host, g: int, b: seq<byte>, size: nat)
    requires Solid(table, host) && Translate(table, g).Some? && size <= Room(g) && size <= |b|
    ensures Written(table, host, g, b) == Written(table, Filled(host, Translate(table, g).value, b[..size]), g + size,
            b[size..])
    decreases size
  {
    hide Translate, Room, PageOf;
    var h := Translate(table, g).value;
    if size == 0 {
      assert b[0..] == b && Filled(host, h, b[..0]) == host;
    } else {
      ChunkThere(table, host, g, size);
      WriteChunk(table, host, g, b, size - 1);
      SamePage(table, g, size - 1);
      var host1 := Filled(host, h, b[..size - 1]);
      assert host1[h + size - 1 := b[size - 1]] == Filled(host, h, b[..size]);
      assert b[size - 1..][0] == b[size - 1] && b[size - 1..][1..] == b[size..];
    }
  }

  lemma FilledSolid(table: Table, host: Host, h: int, b: seq<byte>)
    requires Solid(table, host)
    ensures Solid(table, Filled(host, h, b))
  {
    hide Translate;
  }

  function Plus(k: nat, r: nat): (s: nat) {
    if r == 0 then 0 else k + r
  }

  /** No NUL in host bytes [h, h + n). */
  ghost predicate NoNul(host: Host, h: int, n: nat) {
    forall k :: h <= k < h + n ==> k in host && host[k] != 0
  }

  /** A string goes on over bytes that are not NUL. */
  lemma {:induction false} StringOver(table: Table, host: Host, g: int, n: nat, k: nat)
    requires Solid(table, host) && Translate(table, g).Some? && k <= Room(g) && k <= n
    requires NoNul(host, Translate(table, g).value, k)
    ensures StringLength(table, host, g, n) == Plus(k, StringLength(table, host, g + k, n - k))
    decreases k
  {
    hide Translate, Room, PageOf;
    if k > 0 {
      StringOver(table, host, g, n, k - 1);
      SamePage(table, g, k - 1);
    }
  }

  /** A string ends at a NUL. */
  lemma StringEnd(table: Table, host: Host, g: int, n: nat, i: nat)
    requires Solid(table, host) && Translate(table, g).Some? && i < Room(g) && i < n
    requires var h := Translate(table, g).value; NoNul(host, h, i) && h + i in host && host[h + i] == 0
    ensures StringLength(table, host, g, n) == i + 1
  {
    hide Translate, Room, PageOf;
    StringOver(table, host, g, n, i);
    SamePage(table, g, i);
  }

  /** strnlen. */
  method FirstNul(c: seq<byte>) returns (i: nat)
    ensures i <= |c| && (i < |c| ==> c[i] == 0) && forall j :: 0 <= j < i ==> c[j] != 0
  {
    i := 0;
    while i < |c| && c[i] != 0
      invariant i <= |c| && forall j :: 0 <= j < i ==> c[j] != 0
    {
      i := i + 1;
    }
  }

  class UserMemory {
    const table: Table
    var host: Host

    ghost predicate Valid()
      reads this
    {
      Solid(table, host)
    }

    /** copy_from_user: the bytes up to the first that is not mapped, and how many are missing. */
    method CopyFromUser(src: int, n: nat) returns (to: seq<byte>, left: nat)
      requires Valid()
      ensures to == Readable(table, host, src, n) && left == n - |to|
    {
      hide Translate, Room, PageOf, Solid, Readable;
      to, left := [], n;
      var g := src;
      assert [] + Readable(table, host, src, n) == Readable(table, host, src, n);
      while left > 0
        invariant left <= n && |to| == n - left
        invariant Readable(table, host, src, n) == to + Readable(table, host, g, left)
      {
        var h := Translate(table, g);
        if h == None {
          Stops(table, host, g, left);
          assert to + [] == to;
          return;
        }
        var size := if Room(g) < left then Room(g) else left;
        ReadChunk(table, host, g, left, size);
        ChunkThere(table, host, g, size);
        var chunk := Chunk(host, h.value, size);
        assert (to + chunk) + Readable(table, host, g + size, left - size)
            == to + (chunk + Readable(table, host, g + size, left - size));
        to := to + chunk;
        g := g + size;
        left := left - size;
      }
      Stops(table, host, g, 0);
      assert to + [] == to;
    }

    /** copy_to_user: writes up to the first address that is not mapped, and reports how many bytes are missing. */
    method CopyToUser(to: int, data: seq<byte>) returns (left: nat)
      requires Valid()
      modifies this
      ensures Valid() && host == old(Written(table, host, to, data)) && left == |data| - Reach(table, to, |data|)
    {
      hide Translate, Room, PageOf, Solid, Written, Reach, Filled;
      var g, b := to, data;
      left := |b|;
      while left > 0
        invariant Valid() && left == |b|
        invariant Written(table, host, g, b) == old(Written(table, host, to, data))
        invariant |data| - Reach(table, to, |data|) == left - Reach(table, g, left)
      {
        var h := Translate(table, g);
        if h == None {
          StopsWriting(table, host, g, b);
          return;
        }
        var size := if Room(g) < left then Room(g) else left;
        WriteChunk(table, host, g, b, size);
        ReachChunk(table, g, left, size);
        FilledSolid(table, host, h.value, b[..size]);
        host := Filled(host, h.value, b[..size]);
        g := g + size;
        b := b[size..];
        left := left - size;
      }
      StopsWriting(table, host, g, b);
    }

    /** strnlen_user. */
    method StrnlenUser(src: int, n: nat) returns (r: nat)
      requires Valid() && n < TWO31
      ensures r == StringLength(table, host, src, n)
    {
      hide Translate, Room, PageOf, Solid, StringLength;
      var len, g, left: nat := 0, src, n;
      while left > 0
        invariant left <= n && len == n - left
        invariant StringLength(table, host, src, n) == Plus(len, StringLength(table, host, g, left))
      {
        var h := Translate(table, g);
        if h == None {
          StringStops(table, host, g, left);
          return 0;
        }
        var size := if Room(g) < left then Room(g) else left;
        ChunkThere(table, host, g, size);
        var chunk := Chunk(host, h.value, size);
        var i := FirstNul(chunk);
        if i < size {
          ChunkNul(host, h.value, size, i);
          StringEnd(table, host, g, left, i);
          return len + i + 1;
        }
        assert i == size;
        ChunkNul(host, h.value, size, size);
        StringOver(table, host, g, left, size);
        len, g, left := len + size, g + size, left - size;
      }
      StringStops(table, host, g, 0);
      r := len + 1;
    }

    /** strncpy_from_user: the string with its NUL, or its first n bytes, or a fault. */
    method StrncpyFromUser(src: int, n: nat) returns (to: seq<byte>, ret: int)
      requires Valid() && n < TWO31
      ensures var r := StringLength(table, host, src, n);
              && (r == 0 ==> ret == -EFAULT)
              && (0 < r <= n ==> ret == r - 1 && |to| == r && to[r - 1] == 0 && to == Readable(table, host, src, r))
              && (r > n ==> ret == n && |to| == n && to == Readable(table, host, src, n))
              && (r > 0 ==> forall i :: 0 <= i < ret ==> to[i] != 0)
    {
      hide Solid, StringLength, Readable, Translate;
      var len := StrnlenUser(src, n);
      StringMeaning(table, host, src, n);
      if len == 0 {
        return [], -EFAULT;
      }
      var left;
      if n < len {
        to, left := CopyFromUser(src, n);
        if left > 0 {
          return to, -EFAULT;
        }
        return to, n;
      }
      to, left := CopyFromUser(src, len);
      if left > 0 {
        return to, -EFAULT;
      }
      ret := len - 1;
    }
  }

  /** What the three kinds of answer of a string length mean. */
  lemma {:induction false} StringMeaning(table: Table, host: Host, g: int, n: nat)
    requires Solid(table, host)
    ensures var r := StringLength(table, host, g, n);
            var b := Readable(table, host, g, if r == 0 || r > n then n else r);
            && r <= n + 1
            && (r == 0 ==> |b| < n && forall i :: 0 <= i < |b| ==> b[i] != 0)
            && (0 < r <= n ==> |b| == r && b[r - 1] == 0 && forall i :: 0 <= i < r - 1 ==> b[i] != 0)
            && (r > n ==> |b| == n && forall i :: 0 <= i < n ==> b[i] != 0)
    decreases n
  {
    hide Translate;
    if n > 0 && Translate(table, g).Some? {
      StringMeaning(table, host, g + 1, n - 1);
    }
  }

  // ---- writing, then reading -------------------------------------------

  /** No two pages share host memory. */
  ghost predicate OwnPages(table: Table) {
    forall p, q :: p in table && q in table && p != q ==>
      table[p].host + PAGE <= table[q].host || table[q].host + PAGE <= table[p].host
  }

  lemma OneToOne(table: Table, g: int, g': int)
    requires OwnPages(table) && Translate(table, g).Some? && Translate(table, g') == Translate(table, g)
    ensures g == g'
  {
    var p, q := PageOf(g), PageOf(g');
    assert p in table && q in table;
    hide PageOf;
  }

  lemma {:induction false} WrittenElsewhere(table: Table, host: Host, g: int, b: seq<byte>, x: int)
    requires forall a :: g <= a < g + |b| ==> Translate(table, a) != Some(x)
    requires Solid(table, host) && x in host
    ensures x in Written(table, host, g, b) && Written(table, host, g, b)[x] == host[x]
    ensures Solid(table, Written(table, host, g, b))
    decreases |b|
  {
    hide Translate;
    if b != [] && Translate(table, g).Some? {
      WrittenElsewhere(table, host[Translate(table, g).value := b[0]], g + 1, b[1..], x);
    }
  }

  /** What copy_to_user wrote completely, copy_from_user reads back. */
  lemma {:induction false} WriteRead(table: Table, host: Host, g: int, b: seq<byte>)
    requires Solid(table, host) && OwnPages(table) && Reach(table, g, |b|) == |b|
    ensures Solid(table, Written(table, host, g, b)) && Readable(table, Written(table, host, g, b), g, |b|) == b
    decreases |b|
  {
    hide Translate, OwnPages;
    if b != [] {
      var x := Translate(table, g).value;
      var host1 := host[x := b[0]];
      WriteRead(table, host1, g + 1, b[1..]);
      forall a | g < a < g + |b|
        ensures Translate(table, a) != Some(x)
      {
        if Translate(table, a) == Some(x) {
          OneToOne(table, g, a);
        }
      }
      WrittenElsewhere(table, host1, g + 1, b[1..], x);
      assert b == [b[0]] + b[1..];
    }
  }

  lemma Stops(table: Table, host: Host, g: int, n: nat)
    requires Solid(table, host) && (n == 0 || Translate(table, g) == None)
    ensures Readable(table, host, g, n) == []
  {
  }

  lemma StopsWriting(table: Table, host: Host, g: int, b: seq<byte>)
    requires b == [] || Translate(table, g) == None
    ensures Written(table, host, g, b) == host && Reach(table, g, |b|) == 0
  {
  }

  lemma StringStops(table: Table, host: Host, g: int, n: nat)
    requires Solid(table, host)
    ensures n == 0 ==> StringLength(table, host, g, n) == 1
    ensures n > 0 && Translate(table, g) == None ==> StringLength(table, host, g, n) == 0
  {
  }

  lemma ChunkNul(host: Host, h: int, n: nat, i: nat)
    requires There(host, h, n) && i <= n && forall j :: 0 <= j < i ==> Chunk(host, h, n)[j] != 0
    ensures NoNul(host, h, i) && (i < n ==> h + i in host && host[h + i] == Chunk(host, h, n)[i])
  {
    forall k | h <= k < h + i
      ensures k in host && host[k] != 0
    {
      assert Chunk(host, h, n)[k - h] == host[k];
    }
  }

  lemma {:induction false} ReachChunk(table: Table, g: int, n: nat, size: nat)
    requires Translate(table, g).Some? && size <= Room(g) && size <= n
    ensures Reach(table, g, n) == size + Reach(table, g + size, n - size)
    decreases size
  {
    hide Translate, Room, PageOf;
    if size > 0 {
      ReachChunk(table, g, n, size - 1);
      SamePage(table, g, size - 1);
    }
  }
}
