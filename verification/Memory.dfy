/** The memory routines of lib.c: memset, memcpy and memmove. */
module Memory {
  // memset and memcpy fill up to an aligned address, go on by words and end with single bytes; memmove chooses
  // its direction.

  const WORD := 4

  /** `n` bytes from `at` on are `c`. */
  function Filled(mem: seq<char>, at: nat, c: char, n: nat): (r: seq<char>)
    requires at + n <= |mem|
    ensures |r| == |mem|
  {
    seq(|mem|, i requires 0 <= i < |mem| => if at <= i < at + n then c else mem[i])
  }

  /** `n` bytes from `dest` on are what was at `src`. */
  function Ideal(mem: seq<char>, dest: nat, src: nat, n: nat): (r: seq<char>)
    requires dest + n <= |mem| && src + n <= |mem|
    ensures |r| == |mem|
  {
    seq(|mem|, i requires 0 <= i < |mem| => if dest <= i < dest + n then mem[src + i - dest] else mem[i])
  }

  // ---------- memset ----------

  /** A store of one 32-bit word. */
  method StoreWord(mem: array<char>, at: nat, w: seq<char>)
    requires |w| == WORD && at + WORD <= mem.Length
    modifies mem
    ensures forall i | 0 <= i < mem.Length :: mem[i] == if at <= i < at + WORD then w[i - at] else old(mem[i])
  {
    mem[at] := w[0];
    mem[at + 1] := w[1];
    mem[at + 2] := w[2];
    mem[at + 3] := w[3];
  }

  /** `rep stosl`. */
  method SetWords(mem: array<char>, at: nat, c: char, k: nat)
    requires at + WORD * k <= mem.Length
    modifies mem
    ensures mem[..] == Filled(old(mem[..]), at, c, WORD * k)
  {
    ghost var before := mem[..];
    var ecx := 0;
    while ecx < k
      invariant 0 <= ecx <= k && mem[..] == Filled(before, at, c, WORD * ecx)
    {
      OneMore(before, at, c, WORD * ecx, WORD);
      ghost var now := mem[..];
      StoreWord(mem, at + WORD * ecx, [c, c, c, c]);
      assert mem[..] == Filled(now, at + WORD * ecx, c, WORD);
      ecx := ecx + 1;
    }
  }

  /** The loop over single bytes behind the words. */
  method SetBytes(mem: array<char>, at: nat, c: char, n: nat)
    requires at + n <= mem.Length
    modifies mem
    ensures mem[..] == Filled(old(mem[..]), at, c, n)
  {
    ghost var before := mem[..];
    var i := 0;
    while i < n
      invariant 0 <= i <= n && mem[..] == Filled(before, at, c, i)
    {
      OneMore(before, at, c, i, 1);
      mem[at + i] := c;
      i := i + 1;
    }
  }

  method Memset(mem: array<char>, s: nat, c: char, n: nat)
    requires s + n <= mem.Length
    modifies mem
    ensures mem[..] == Filled(old(mem[..]), s, c, n)
  {
    ghost var before := mem[..];
    var edi, ecx := s, n;
    ghost var done: nat := 0;
    while ecx != 0 && edi % WORD != 0
      invariant 0 <= ecx && edi == s + done && done + ecx == n
      invariant mem[..] == Filled(before, s, c, done)
      decreases ecx
    {
      OneMore(before, s, c, done, 1);
      mem[edi] := c;
      edi := edi + 1;
      ecx := ecx - 1;
      done := done + 1;
    }
    if ecx == 0 {
      return;
    }
    var edx := ecx % WORD;
    ecx := ecx / WORD;
    SetWords(mem, edi, c, ecx);
    OneMore(before, s, c, done, WORD * ecx);
    SetBytes(mem, edi + WORD * ecx, c, edx);
    OneMore(before, s, c, done + WORD * ecx, edx);
    assert done + WORD * ecx + edx == n;
  }

  lemma OneMore(before: seq<char>, s: nat, c: char, done: nat, k: nat)
    requires s + done + k <= |before|
    ensures Filled(Filled(before, s, c, done), s + done, c, k) == Filled(before, s, c, done + k)
    ensures k == 1 ==> Filled(before, s, c, done)[s + done := c] == Filled(before, s, c, done + k)
  {
  }

  // ---------- memcpy ----------

  /** Single bytes, one after the other. */
  function Bytes(mem: seq<char>, dest: nat, src: nat, n: nat): (r: seq<char>)
    requires dest + n <= |mem| && src + n <= |mem|
    ensures |r| == |mem|
    decreases n
  {
    if n == 0 then mem else Bytes(mem[dest := mem[src]], dest + 1, src + 1, n - 1)
  }

  /** Words, each of which is read before it is written. */
  function Words(mem: seq<char>, dest: nat, src: nat, k: nat): (r: seq<char>)
    requires dest + WORD * k <= |mem| && src + WORD * k <= |mem|
    ensures |r| == |mem|
    decreases k
  {
    if k == 0 then mem else Words(Ideal(mem, dest, src, WORD), dest + WORD, src + WORD, k - 1)
  }

  function Copied(mem: seq<char>, dest: nat, src: nat, n: nat): (r: seq<char>)
    requires dest + n <= |mem| && src + n <= |mem|
    ensures |r| == |mem|
    decreases n
  {
    if n == 0 then mem
    else if dest % WORD != 0 then Copied(mem[dest := mem[src]], dest + 1, src + 1, n - 1)
    else
      var k := n / WORD;
      Bytes(Words(mem, dest, src, k), dest + WORD * k, src + WORD * k, n % WORD)
  }

  /** `rep movsl`. */
  method CopyWords(mem: array<char>, dest: nat, src: nat, k: nat)
    requires dest + WORD * k <= mem.Length && src + WORD * k <= mem.Length
    modifies mem
    ensures mem[..] == Words(old(mem[..]), dest, src, k)
  {
    var edi, esi, ecx := dest, src, k;
    while ecx != 0
      invariant 0 <= ecx <= k && edi == dest + WORD * (k - ecx) && esi == src + WORD * (k - ecx)
      invariant Words(mem[..], edi, esi, ecx) == Words(old(mem[..]), dest, src, k)
      decreases ecx
    {
      ghost var now := mem[..];
      StoreWord(mem, edi, mem[esi..esi + WORD]);
      assert mem[..] == Ideal(now, edi, esi, WORD);
      edi := edi + WORD;
      esi := esi + WORD;
      ecx := ecx - 1;
    }
  }

  /** The loop over single bytes behind the words. */
  method CopyBytes(mem: array<char>, dest: nat, src: nat, n: nat)
    requires dest + n <= mem.Length && src + n <= mem.Length
    modifies mem
    ensures mem[..] == Bytes(old(mem[..]), dest, src, n)
  {
    var edi, esi, edx := dest, src, n;
    while edx != 0
      invariant 0 <= edx <= n && edi == dest + (n - edx) && esi == src + (n - edx)
      invariant Bytes(mem[..], edi, esi, edx) == Bytes(old(mem[..]), dest, src, n)
      decreases edx
    {
      mem[edi] := mem[esi];
      edi := edi + 1;
      esi := esi + 1;
      edx := edx - 1;
    }
  }

  method Memcpy(mem: array<char>, dest: nat, src: nat, n: nat)
    requires dest + n <= mem.Length && src + n <= mem.Length
    modifies mem
    ensures mem[..] == Copied(old(mem[..]), dest, src, n)
  {
    var esi, edi, ecx := src, dest, n;
    while ecx != 0 && edi % WORD != 0
      invariant 0 <= ecx <= n && edi == dest + (n - ecx) && esi == src + (n - ecx)
      invariant Copied(mem[..], edi, esi, ecx) == Copied(old(mem[..]), dest, src, n)
      decreases ecx
    {
      mem[edi] := mem[esi];
      edi := edi + 1;
      esi := esi + 1;
      ecx := ecx - 1;
    }
    if ecx == 0 {
      return;
    }
    var edx := ecx % WORD;
    ecx := ecx / WORD;
    CopyWords(mem, edi, esi, ecx);
    CopyBytes(mem, edi + WORD * ecx, esi + WORD * ecx, edx);
  }

  /** No byte is read after it has been overwritten. */
  predicate Apart(dest: nat, src: nat, n: nat) {
    dest <= src || src + n <= dest
  }

  /** What byte `i` ought to be. */
  function At(mem: seq<char>, dest: nat, src: nat, n: nat, i: nat): char
    requires dest + n <= |mem| && src + n <= |mem| && i < |mem|
  {
    if dest <= i < dest + n then mem[src + i - dest] else mem[i]
  }

  lemma {:induction false} BytesAt(mem: seq<char>, dest: nat, src: nat, n: nat, i: nat)
    requires dest + n <= |mem| && src + n <= |mem| && Apart(dest, src, n) && i < |mem|
    ensures Bytes(mem, dest, src, n)[i] == At(mem, dest, src, n, i)
    decreases n
  {
    if n == 0 {
    } else {
      BytesAt(mem[dest := mem[src]], dest + 1, src + 1, n - 1, i);
    }
  }

  lemma {:induction false} WordsAt(mem: seq<char>, dest: nat, src: nat, k: nat, i: nat)
    requires dest + WORD * k <= |mem| && src + WORD * k <= |mem| && Apart(dest, src, WORD * k) && i < |mem|
    ensures Words(mem, dest, src, k)[i] == At(mem, dest, src, WORD * k, i)
    decreases k
  {
    if k == 0 {
    } else {
      WordsAt(Ideal(mem, dest, src, WORD), dest + WORD, src + WORD, k - 1, i);
    }
  }

  lemma PartsAt(mem: seq<char>, dest: nat, src: nat, k: nat, words: nat, n: nat, i: nat)
    requires dest + n <= |mem| && src + n <= |mem| && Apart(dest, src, n) && i < |mem| && WORD * k == words <= n
    ensures Bytes(Words(mem, dest, src, k), dest + words, src + words, n - words)[i] == At(mem, dest, src, n, i)
  {
    BytesAt(Words(mem, dest, src, k), dest + words, src + words, n - words, i);
    WordsAt(mem, dest, src, k, i);
    if dest + words <= i < dest + n {
      WordsAt(mem, dest, src, k, src + i - dest);
    }
  }

  lemma {:induction false} CopiedAt(mem: seq<char>, dest: nat, src: nat, n: nat, i: nat)
    requires dest + n <= |mem| && src + n <= |mem| && Apart(dest, src, n) && i < |mem|
    ensures Copied(mem, dest, src, n)[i] == At(mem, dest, src, n, i)
    decreases n
  {
    if n == 0 {
    } else if dest % WORD != 0 {
      CopiedAt(mem[dest := mem[src]], dest + 1, src + 1, n - 1, i);
    } else {
      PartsAt(mem, dest, src, n / WORD, WORD * (n / WORD), n, i);
    }
  }

  /** For any alignment and any length. */
  lemma CopyIsRight(mem: seq<char>, dest: nat, src: nat, n: nat)
    requires dest + n <= |mem| && src + n <= |mem| && Apart(dest, src, n)
    ensures Copied(mem, dest, src, n) == Ideal(mem, dest, src, n)
  {
    forall i: nat | i < |mem|
      ensures Copied(mem, dest, src, n)[i] == Ideal(mem, dest, src, n)[i]
    {
      CopiedAt(mem, dest, src, n, i);
    }
  }

  // ---------- where memcpy goes wrong ----------

  /** What is read below the place being written stays as it is until it is read. */
  lemma {:induction false} BytesRead(mem: seq<char>, dest: nat, src: nat, n: nat, i: nat)
    requires dest + n <= |mem| && src + n <= |mem| && i < n && src + i < dest
    ensures Bytes(mem, dest, src, n)[dest + i] == mem[src + i]
    decreases n
  {
    if i > 0 {
      BytesRead(mem[dest := mem[src]], dest + 1, src + 1, n - 1, i - 1);
    } else {
      BytesKeep(mem[dest := mem[src]], dest + 1, src + 1, n - 1, dest);
    }
  }

  lemma {:induction false} BytesKeep(mem: seq<char>, dest: nat, src: nat, n: nat, p: nat)
    requires dest + n <= |mem| && src + n <= |mem| && p < |mem| && p < dest
    ensures Bytes(mem, dest, src, n)[p] == mem[p]
    decreases n
  {
    if n == 0 {
    } else {
      BytesKeep(mem[dest := mem[src]], dest + 1, src + 1, n - 1, p);
    }
  }

  lemma {:induction false} WordsKeep(mem: seq<char>, dest: nat, src: nat, k: nat, p: nat)
    requires dest + WORD * k <= |mem| && src + WORD * k <= |mem| && p < |mem| && p < dest
    ensures Words(mem, dest, src, k)[p] == mem[p]
    decreases k
  {
    if k == 0 {
    } else {
      WordsKeep(Ideal(mem, dest, src, WORD), dest + WORD, src + WORD, k - 1, p);
    }
  }

  lemma {:induction false} WordsRead(mem: seq<char>, dest: nat, src: nat, k: nat, i: nat)
    requires dest + WORD * k <= |mem| && src + WORD * k <= |mem| && i < WORD * k && src + i < dest
    ensures Words(mem, dest, src, k)[dest + i] == mem[src + i]
    decreases k
  {
    var next := Ideal(mem, dest, src, WORD);
    if i >= WORD {
      WordsRead(next, dest + WORD, src + WORD, k - 1, i - WORD);
    } else {
      WordsKeep(next, dest + WORD, src + WORD, k - 1, dest + i);
    }
  }

  lemma {:induction false} CopyRead(mem: seq<char>, dest: nat, src: nat, n: nat, i: nat)
    requires dest + n <= |mem| && src + n <= |mem| && i < n && src + i < dest
    ensures Copied(mem, dest, src, n)[dest + i] == mem[src + i]
    decreases n
  {
    if dest % WORD != 0 {
      var next := mem[dest := mem[src]];
      if i > 0 {
        CopyRead(next, dest + 1, src + 1, n - 1, i - 1);
      } else {
        CopyKeep(next, dest + 1, src + 1, n - 1, dest);
      }
    } else {
      AlignedRead(mem, dest, src, n, i);
    }
  }

  lemma AlignedRead(mem: seq<char>, dest: nat, src: nat, n: nat, i: nat)
    requires dest + n <= |mem| && src + n <= |mem| && i < n && src + i < dest && dest % WORD == 0
    ensures Copied(mem, dest, src, n)[dest + i] == mem[src + i]
  {
    var k := n / WORD;
    var next := Words(mem, dest, src, k);
    if i < WORD * k {
      WordsRead(mem, dest, src, k, i);
      BytesKeep(next, dest + WORD * k, src + WORD * k, n % WORD, dest + i);
    } else {
      WordsKeep(mem, dest, src, k, src + i);
      BytesRead(next, dest + WORD * k, src + WORD * k, n % WORD, i - WORD * k);
    }
  }

  lemma {:induction false} CopyKeep(mem: seq<char>, dest: nat, src: nat, n: nat, p: nat)
    requires dest + n <= |mem| && src + n <= |mem| && p < |mem| && p < dest
    ensures Copied(mem, dest, src, n)[p] == mem[p]
    decreases n
  {
    if n == 0 {
    } else if dest % WORD != 0 {
      CopyKeep(mem[dest := mem[src]], dest + 1, src + 1, n - 1, p);
    } else {
      var k := n / WORD;
      WordsKeep(mem, dest, src, k, p);
      BytesKeep(Words(mem, dest, src, k), dest + WORD * k, src + WORD * k, n % WORD, p);
    }
  }

  /** Memory that holds one letter at one place. */
  function Marked(size: nat, p: int): (mem: seq<char>)
    ensures |mem| == size && forall i | 0 <= i < size :: mem[i] == if i == p then 'x' else '.'
  {
    seq(size, i => if i == p then 'x' else '.')
  }

  ghost predicate RightOn(mem: seq<char>, dest: nat, src: nat, n: nat)
    requires dest + n <= |mem| && src + n <= |mem|
  {
    Copied(mem, dest, src, n) == Ideal(mem, dest, src, n)
  }

  /** The first byte is copied, and with it the place that a later one is read from. */
  lemma BytesGoWrong(dest: nat, src: nat, n: nat, size: nat)
    requires dest + n <= size && src + n <= size && !Apart(dest, src, n) && (dest % WORD != 0 || n < WORD)
    ensures !RightOn(Marked(size, src), dest, src, n)
  {
    var d, mem := dest - src, Marked(size, src);
    var next := mem[dest := mem[src]];
    if dest % WORD != 0 {
      CopyRead(next, dest + 1, src + 1, n - 1, d - 1);
    } else {
      BytesRead(next, dest + 1, src + 1, n - 1, d - 1);
    }
    assert dest + 1 + (d - 1) == dest + d;
    assert Copied(mem, dest, src, n)[dest + d] == next[dest] == 'x';
    assert Ideal(mem, dest, src, n)[dest + d] == mem[dest] == '.';
  }

  /** The same with a word. */
  lemma WordsGoWrong(dest: nat, src: nat, n: nat, size: nat)
    requires dest + n <= size && src + n <= size && !Apart(dest, src, n) && dest % WORD == 0 && n > WORD
    ensures exists p :: !RightOn(Marked(size, p), dest, src, n)
  {
    var d := dest - src;
    var i, p := if d < WORD then WORD else d, if d < WORD then src + WORD - d else src;
    var mem := Marked(size, p);
    AlignedWordFirst(mem, dest, src, n, i);
    assert Copied(mem, dest, src, n)[dest + i] == mem[p] == 'x';
    assert Ideal(mem, dest, src, n)[dest + i] == mem[src + i] == '.';
    assert !RightOn(mem, dest, src, n);
  }

  lemma OverlapGoesWrong(dest: nat, src: nat, n: nat, size: nat)
    requires dest + n <= size && src + n <= size && !Apart(dest, src, n) && !(dest % WORD == 0 && n == WORD)
    ensures exists p :: !RightOn(Marked(size, p), dest, src, n)
  {
    if dest % WORD != 0 || n < WORD {
      BytesGoWrong(dest, src, n, size);
    } else {
      WordsGoWrong(dest, src, n, size);
    }
  }

  /** Behind the first word, everything is read from the memory that this word has left. */
  lemma AlignedWordFirst(mem: seq<char>, dest: nat, src: nat, n: nat, i: nat)
    requires dest + n <= |mem| && src + n <= |mem| && WORD <= i < n && dest % WORD == 0 && src + i < dest + WORD
    ensures Copied(mem, dest, src, n)[dest + i] == Ideal(mem, dest, src, WORD)[src + i]
  {
    var next := Ideal(mem, dest, src, WORD);
    AlignedSplits(mem, dest, src, n);
    assert dest + WORD + (i - WORD) == dest + i && src + WORD + (i - WORD) == src + i;
    NextWord(dest);
    AlignedRead(next, dest + WORD, src + WORD, n - WORD, i - WORD);
  }

  lemma NextWord(at: nat)
    ensures (at + WORD) % WORD == at % WORD && (at + WORD) / WORD == at / WORD + 1
  {
  }

  lemma AlignedSplits(mem: seq<char>, dest: nat, src: nat, n: nat)
    requires dest + n <= |mem| && src + n <= |mem| && WORD <= n && dest % WORD == 0
    ensures Copied(mem, dest, src, n) == Copied(Ideal(mem, dest, src, WORD), dest + WORD, src + WORD, n - WORD)
  {
    var next := Ideal(mem, dest, src, WORD);
    var k := n / WORD;
    NextWord(n - WORD);
    NextWord(dest);
    assert Words(mem, dest, src, k) == Words(next, dest + WORD, src + WORD, k - 1);
  }

  lemma OneWordIsRight(mem: seq<char>, dest: nat, src: nat)
    requires dest + WORD <= |mem| && src + WORD <= |mem| && dest % WORD == 0
    ensures RightOn(mem, dest, src, WORD)
  {
    assert Words(mem, dest, src, 1) == Words(Ideal(mem, dest, src, WORD), dest + WORD, src + WORD, 0);
  }

  /**
   Whatever the memory holds, memcpy is right exactly if the destination does not begin inside the
   source, or is just one aligned word.
   */
  lemma MemcpyIsRightIff(dest: nat, src: nat, n: nat, size: nat)
    requires dest + n <= size && src + n <= size
    ensures (forall mem: seq<char> | |mem| == size :: RightOn(mem, dest, src, n))
       <==> Apart(dest, src, n) || (dest % WORD == 0 && n == WORD)
  {
    if Apart(dest, src, n) || (dest % WORD == 0 && n == WORD) {
      forall mem: seq<char> | |mem| == size
        ensures RightOn(mem, dest, src, n)
      {
        if Apart(dest, src, n) {
          CopyIsRight(mem, dest, src, n);
        } else {
          OneWordIsRight(mem, dest, src);
        }
      }
    } else {
      OverlapGoesWrong(dest, src, n, size);
      var p :| !RightOn(Marked(size, p), dest, src, n);
      assert |Marked(size, p)| == size;
    }
  }

  // ---------- memmove ----------

  /** Towards higher addresses if the source lies higher, and towards lower ones if not. */
  method Memmove(mem: array<char>, dest: nat, src: nat, n: nat)
    requires dest + n <= mem.Length && src + n <= mem.Length
    modifies mem
    ensures mem[..] == Ideal(old(mem[..]), dest, src, n)
  {
    ghost var before := mem[..];
    if src >= dest {
      var i := 0;
      while i < n
        invariant 0 <= i <= n
        invariant forall k | dest <= k < dest + i :: mem[k] == before[src + (k - dest)]
        invariant forall k | 0 <= k < mem.Length && !(dest <= k < dest + i) :: mem[k] == before[k]
      {
        mem[dest + i] := mem[src + i];
        i := i + 1;
      }
    } else {
      var i := n;
      while i > 0
        invariant 0 <= i <= n
        invariant forall k | dest + i <= k < dest + n :: mem[k] == before[src + (k - dest)]
        invariant forall k | 0 <= k < mem.Length && !(dest + i <= k < dest + n) :: mem[k] == before[k]
      {
        i := i - 1;
        mem[dest + i] := mem[src + i];
      }
    }
    assert mem[..] == Ideal(before, dest, src, n);
  }
}
