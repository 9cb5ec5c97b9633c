/** Data kept in a list of 4K pages. */
module PagedBuffers {
  import opened Segments
  import opened Framing
  import opened ModArith

  predicate Paged(pages: seq<seq<Byte>>) {
    forall i | 0 <= i < |pages| :: |pages[i]| == PAGE_SIZE
  }

  lemma {:induction false} FlatSize(pages: seq<seq<Byte>>)
    requires Paged(pages)
    ensures |Join(pages)| == PAGE_SIZE * |pages|
  {
    if pages != [] {
      FlatSize(pages[1..]);
    }
  }

  /** Byte k lies in page k / 4096 at offset k % 4096. */
  lemma {:induction false} FlatAt(pages: seq<seq<Byte>>, k: nat)
    requires Paged(pages) && k < PAGE_SIZE * |pages|
    ensures |Join(pages)| == PAGE_SIZE * |pages| && k / PAGE_SIZE < |pages|
    ensures Join(pages)[k] == pages[k / PAGE_SIZE][k % PAGE_SIZE]
    decreases |pages|
  {
    FlatSize(pages);
    if k >= PAGE_SIZE {
      FlatAt(pages[1..], k - PAGE_SIZE);
      assert (k - PAGE_SIZE) / PAGE_SIZE == k / PAGE_SIZE - 1;
    }
  }

  /** data copied to offset off of page p. */
  function Store(pages: seq<seq<Byte>>, p: nat, off: nat, data: seq<Byte>): (r: seq<seq<Byte>>)
    requires Paged(pages) && p < |pages| && off + |data| <= PAGE_SIZE
    ensures Paged(r) && |r| == |pages|
  {
    pages[p := pages[p][..off] + data + pages[p][off + |data|..]]
  }

  lemma {:induction false} StoreFlat(pages: seq<seq<Byte>>, p: nat, off: nat, data: seq<Byte>)
    requires Paged(pages) && p < |pages| && off + |data| <= PAGE_SIZE
    ensures var k, flat := PAGE_SIZE * p + off, Join(pages);
      k + |data| <= |flat| && Join(Store(pages, p, off, data)) == flat[..k] + data + flat[k + |data|..]
    decreases p
  {
    FlatSize(pages);
    if p == 0 {
      StoreFirst(pages[0], Join(pages[1..]), off, data);
      assert Store(pages, p, off, data)[1..] == pages[1..];
    } else {
      FlatSize(pages[1..]);
      StoreFlat(pages[1..], p - 1, off, data);
      assert Store(pages, p, off, data)[1..] == Store(pages[1..], p - 1, off, data);
      StoreLater(pages[0], Join(pages[1..]), PAGE_SIZE * (p - 1) + off, data);
    }
  }

  lemma {:induction false} StoreFirst(page: seq<Byte>, tail: seq<Byte>, off: nat, data: seq<Byte>)
    requires off + |data| <= |page|
    ensures page[..off] + data + page[off + |data|..] + tail ==
            (page + tail)[..off] + data + (page + tail)[off + |data|..]
  {
  }

  lemma {:induction false} StoreLater(page: seq<Byte>, tail: seq<Byte>, j: nat, data: seq<Byte>)
    requires j + |data| <= |tail|
    ensures page + (tail[..j] + data + tail[j + |data|..]) ==
            (page + tail)[..|page| + j] + data + (page + tail)[|page| + j + |data|..]
  {
    assert (page + tail)[..|page| + j] == page + tail[..j];
    assert (page + tail)[|page| + j + |data|..] == tail[j + |data|..];
  }

  /** The part of the next page that is still to be filled or sent. */
  function NextPiece(done: nat, total: nat): (n: nat)
    requires done < total
    ensures 1 <= n <= total - done && done % PAGE_SIZE + n <= PAGE_SIZE
  {
    var room := PAGE_SIZE - done % PAGE_SIZE;
    if room < total - done then room else total - done
  }

  /** Moving within a page changes the page number only at its end. */
  lemma {:induction false} NextPage(done: nat, n: nat)
    requires 1 <= n && done % PAGE_SIZE + n <= PAGE_SIZE
    ensures (done + n) / PAGE_SIZE == done / PAGE_SIZE + if (done + n) % PAGE_SIZE == 0 then 1 else 0
  {
  }

  lemma {:induction false} EnoughPages(n: nat, k: nat)
    requires k < n
    ensures k / PAGE_SIZE < Pages(n) && n <= PAGE_SIZE * Pages(n)
  {
  }

  /** Bytes from position k that lie in one page. */
  lemma {:induction false} PieceAt(pages: seq<seq<Byte>>, k: nat, n: nat)
    requires Paged(pages) && k + n <= PAGE_SIZE * |pages| && k % PAGE_SIZE + n <= PAGE_SIZE && 1 <= n
    ensures k / PAGE_SIZE < |pages| && |Join(pages)| == PAGE_SIZE * |pages|
    ensures pages[k / PAGE_SIZE][k % PAGE_SIZE..k % PAGE_SIZE + n] == Join(pages)[k..k + n]
  {
    FlatAt(pages, k);
    var a, b := pages[k / PAGE_SIZE][k % PAGE_SIZE..k % PAGE_SIZE + n], Join(pages)[k..k + n];
    forall i | 0 <= i < n ensures a[i] == b[i] {
      FlatAt(pages, k + i);
      assert (k + i) / PAGE_SIZE == k / PAGE_SIZE && (k + i) % PAGE_SIZE == k % PAGE_SIZE + i;
    }
  }
}
