/**
  The sequential streams of include/storage/cached_io.h: reads through a cache that is
  refilled from the file, and writes through a cache that is spilled to it.
 */
module CachedIo {
  import opened Common

  type Bytes = seq<int>

  datatype Error = BeyondEnd

  /** The input stream; `pos` is where the file itself has been read to. */
  class CachedInput {
    const file: Bytes
    const cacheSize: nat
    const cache: array<int>
    var pos: nat
    var curOff: nat

    /** The unread part of the cache is the file right before `pos`; a used-up cache says nothing. */
    ghost predicate Valid()
      reads this, cache
    {
      && cache.Length == cacheSize <= |file| && curOff <= cacheSize && pos <= |file|
      && (curOff < cacheSize ==> cacheSize <= pos && cache[..] == file[pos - cacheSize..pos])
    }

    /** How many bytes have been handed out. */
    ghost function Consumed(): (n: int)
      reads this
    {
      pos - (cacheSize - curOff)
    }

    constructor (bytes: Bytes, size: nat)
      requires size > 0
      ensures Valid() && Consumed() == 0 && file == bytes && fresh(cache)
    {
      var n := if size < |bytes| then size else |bytes|;
      file, cacheSize, cache := bytes, n, new int[n](i requires 0 <= i < n <= |bytes| => bytes[i]);
      pos, curOff := n, 0;
      new;
      assert cache[..] == file[..n];
    }

    /** Copy file bytes from the stream position into an array. */
    method Fetch(dst: array<int>, at: nat, n: nat)
      requires at + n <= dst.Length && pos + n <= |file|
      modifies this`pos, dst
      ensures pos == old(pos) + n
      ensures dst[..] == old(dst[..at]) + file[old(pos)..old(pos) + n] + old(dst[at + n..])
    {
      forall i | 0 <= i < n {
        dst[at + i] := file[pos + i];
      }
      pos := pos + n;
    }

    /** Read the next `n` bytes, or refuse without any change when the file has fewer left. */
    method Read(dst: array<int>, n: nat) returns (e: Option<Error>)
      requires Valid() && n <= dst.Length && dst != cache
      modifies this`pos, this`curOff, cache, dst
      ensures e.None? <==> old(Consumed()) + n <= |file|
      ensures e.Some? ==> pos == old(pos) && curOff == old(curOff) && cache[..] == old(cache[..]) && dst[..] == old(dst[..])
      ensures Valid() && Consumed() == old(Consumed()) + (if e.None? then n else 0)
      ensures e.None? ==> dst[..n] == file[old(Consumed())..old(Consumed()) + n] && dst[n..] == old(dst[n..])
    {
      var cached := cacheSize - curOff;
      if n <= cached {
        TakeCached(dst, n);
        curOff := curOff + n;
        return None;
      }
      if n - cached > |file| - pos {
        return Some(BeyondEnd);
      }
      ReadThrough(dst, n);
      Refill();
      return None;
    }

    /** Copy the next bytes of the cache. */
    method TakeCached(dst: array<int>, n: nat)
      requires Valid() && n <= cacheSize - curOff && n <= dst.Length && dst != cache
      modifies dst
      ensures dst[..n] == file[Consumed()..Consumed() + n] && dst[n..] == old(dst[n..])
    {
      ghost var start := Consumed();
      forall i | 0 <= i < n {
        dst[i] := cache[curOff + i];
      }
      if n > 0 {
        SliceOfSlice(file, pos - cacheSize, pos, cache[..], curOff, n);
        assert dst[..n] == cache[..][curOff..curOff + n];
      }
    }

    /** Use the cache up and take the rest straight from the file. */
    method ReadThrough(dst: array<int>, n: nat)
      requires Valid() && cacheSize - curOff < n <= dst.Length && dst != cache && Consumed() + n <= |file|
      modifies this`pos, this`curOff, dst
      ensures pos == old(Consumed()) + n <= |file| && curOff == cacheSize
      ensures dst[..n] == file[old(Consumed())..old(Consumed()) + n] && dst[n..] == old(dst[n..])
    {
      var cached := cacheSize - curOff;
      ghost var start, before, tail := Consumed(), pos, dst[n..];
      TakeCached(dst, cached);
      ghost var head := dst[..cached];
      Fetch(dst, cached, n - cached);
      Joined(file, start, before, pos);
      SplitThree(dst[..], head, file[before..pos], tail, n);
      curOff := cacheSize;
    }

    /** Fill the cache again if the file still has that much; otherwise later reads bypass it. */
    method Refill()
      requires cache.Length == cacheSize <= |file| && curOff == cacheSize && pos <= |file|
      modifies this`pos, this`curOff, cache
      ensures Valid() && Consumed() == old(pos)
    {
      if |file| - pos >= cacheSize {
        Fetch(cache, 0, cacheSize);
        curOff := 0;
      }
    }
  }

  lemma SliceOfSlice(file: Bytes, a: nat, b: nat, part: Bytes, i: nat, n: nat)
    requires a <= b <= |file| && part == file[a..b] && i + n <= |part|
    ensures part[i..i + n] == file[a + i..a + i + n]
  {
    var s, f := part[i..i + n], file[a + i..a + i + n];
    forall k | 0 <= k < n ensures s[k] == f[k] {
      assert part[i + k] == file[a + (i + k)];
    }
  }

  lemma Joined(file: Bytes, a: nat, b: nat, c: nat)
    requires a <= b <= c <= |file|
    ensures file[a..b] + file[b..c] == file[a..c]
  {
  }

  lemma SplitThree(all: Bytes, a: Bytes, b: Bytes, c: Bytes, n: nat)
    requires all == a + b + c && n == |a| + |b|
    ensures all[..n] == a + b && all[n..] == c
  {
  }

  /** Reading in pieces gives consecutive bytes: the pieces laid end to end are a prefix of the file. */
  method ReadAll(stream: CachedInput, sizes: seq<nat>) returns (got: Bytes, ok: bool)
    requires stream.Valid()
    modifies stream`pos, stream`curOff, stream.cache
    ensures stream.Valid()
    ensures ok <==> old(stream.Consumed()) + Total(sizes, |sizes|) <= |stream.file|
    ensures old(stream.Consumed()) + |got| <= |stream.file|
    ensures got == stream.file[old(stream.Consumed())..old(stream.Consumed()) + |got|]
    ensures ok ==> |got| == Total(sizes, |sizes|)
  {
    got, ok := [], true;
    for i := 0 to |sizes|
      invariant stream.Valid() && stream.Consumed() == old(stream.Consumed()) + |got| <= |stream.file|
      invariant |got| == Total(sizes, i)
      invariant got == stream.file[old(stream.Consumed())..old(stream.Consumed()) + |got|]
    {
      var dst := new int[sizes[i]];
      ghost var from := stream.Consumed();
      var e := stream.Read(dst, sizes[i]);
      TotalGrows(sizes, i + 1, |sizes|);
      if e.Some? {
        return got, false;
      }
      assert dst[..sizes[i]] == dst[..];
      got := got + dst[..];
    }
  }

  /** The sum of the first `n` sizes. */
  function Total(sizes: seq<nat>, n: nat): nat
    requires n <= |sizes|
  {
    if n == 0 then 0 else Total(sizes, n - 1) + sizes[n - 1]
  }

  lemma {:induction false} TotalGrows(sizes: seq<nat>, a: nat, b: nat)
    requires a <= b <= |sizes|
    ensures Total(sizes, a) <= Total(sizes, b)
  {
    if a < b {
      TotalGrows(sizes, a, b - 1);
    }
  }

  /** The output stream; `file` is what has reached the file. */
  class CachedOutput {
    const cacheSize: nat
    const cache: array<int>
    var file: Bytes
    var curOff: nat
    var fsize: nat

    ghost predicate Valid()
      reads this
    {
      cache.Length == cacheSize && curOff <= cacheSize && fsize == |file|
    }

    /** Everything written so far, in the file or still in the cache. */
    ghost function Contents(): (all: Bytes)
      reads this, cache
      requires Valid()
    {
      file + cache[..curOff]
    }

    constructor (size: nat)
      requires size > 0
      ensures Valid() && Contents() == [] && cacheSize == size && fresh(cache)
    {
      cacheSize, cache, file, curOff, fsize := size, new int[size](_ => 0), [], 0, 0;
    }

    method Write(bytes: Bytes)
      requires Valid()
      modifies this`file, this`curOff, this`fsize, cache
      ensures Valid() && Contents() == old(Contents()) + bytes
    {
      var n := |bytes|;
      if n <= cacheSize - curOff {
        forall i | 0 <= i < n {
          cache[curOff + i] := bytes[i];
        }
        assert cache[..curOff + n] == old(cache[..curOff]) + bytes;
        curOff := curOff + n;
        return;
      }
      file := file + cache[..curOff];
      fsize := fsize + curOff;
      file := file + bytes;
      fsize := fsize + n;
      forall i | 0 <= i < cacheSize {
        cache[i] := 0;
      }
      curOff := 0;
    }

    method FlushCache()
      requires Valid()
      modifies this`file, this`curOff, this`fsize, cache
      ensures Valid() && Contents() == old(Contents()) == file && curOff == 0
    {
      file := file + cache[..curOff];
      fsize := fsize + curOff;
      forall i | 0 <= i < cacheSize {
        cache[i] := 0;
      }
      curOff := 0;
    }

    method Close()
      requires Valid()
      modifies this`file, this`curOff, this`fsize, cache
      ensures Valid() && file == old(Contents()) && fsize == |file| && curOff == 0
    {
      if curOff > 0 {
        FlushCache();
      }
    }
  }

  function Concat(pieces: seq<Bytes>): Bytes {
    if |pieces| == 0 then [] else Concat(pieces[..|pieces| - 1]) + pieces[|pieces| - 1]
  }

  /** Whatever the cache size, a file written in pieces and closed is their concatenation. */
  method WriteAll(size: nat, pieces: seq<Bytes>) returns (file: Bytes)
    requires size > 0
    ensures file == Concat(pieces)
  {
    var stream := new CachedOutput(size);
    for i := 0 to |pieces|
      invariant fresh(stream) && fresh(stream.cache) && stream.Valid() && stream.Contents() == Concat(pieces[..i])
    {
      assert pieces[..i + 1][..i] == pieces[..i];
      stream.Write(pieces[i]);
    }
    assert pieces[..|pieces|] == pieces;
    stream.Close();
    return stream.file;
  }

  /** A file written in pieces through one cache and read in other pieces through another is unchanged. */
  method WriteThenRead(size: nat, pieces: seq<Bytes>, readSize: nat, sizes: seq<nat>) returns (got: Bytes, ok: bool)
    requires size > 0 && readSize > 0
    ensures ok <==> Total(sizes, |sizes|) <= |Concat(pieces)|
    ensures |got| <= |Concat(pieces)| && got == Concat(pieces)[..|got|]
    ensures ok ==> |got| == Total(sizes, |sizes|)
  {
    var file := WriteAll(size, pieces);
    var stream := new CachedInput(file, readSize);
    got, ok := ReadAll(stream, sizes);
  }
}
