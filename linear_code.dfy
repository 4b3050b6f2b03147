/** The systematic (n, k) binary linear block code of linear_code.py (and
    of its copy, the LinearCode class of decoding.py): the generator matrix
    G = [I_k | A], the parity-check matrix H = [A ; I_{n-k}], and the
    syndrome table filled by a counter-driven walk over 2^(n-k) - 1
    candidate error vectors, first writer wins.

    The reference functions below give the intended value of each
    artefact; the class LinearCode builds them step by step, as the source
    does, and is proved to produce exactly those values. */
module LinearCodes {
  import opened GF2

  /** What the construction relies on without checking it: numpy's
      `ones((k, n - k))` needs n >= k, and `A[x, x]` for x < n - k needs
      n - k <= k. */
  predicate ParamsOk(k: int, n: int) {
    0 <= n - k <= k
  }

  /** G = [I_k | A]: A is all ones except A[x][x] = 0 for x < n - k. */
  function GenMatrix(k: int, n: int): (g: seq<seq<int>>)
    requires ParamsOk(k, n)
    ensures IsBitMatrix(g, k, n)
  {
    seq(k, r => seq(n, c => if c < k then (if c == r then 1 else 0)
                            else if c - k == r then 0 else 1))
  }

  /** H: the first k rows hold A, the last n - k rows hold I_{n-k}. */
  function ParityMatrix(k: int, n: int): (h: seq<seq<int>>)
    requires ParamsOk(k, n)
    ensures IsBitMatrix(h, n, n - k)
  {
    seq(n, r => seq(n - k, c => if r < k then (if c == r then 0 else 1)
                                else if r - k == c then 1 else 0))
  }

  /** The number of candidates the table loop visits: 2^(n-k) - 1. */
  function TableSize(k: int, n: int): (size: nat)
    requires ParamsOk(k, n)
    ensures size == 0 <==> n == k
  {
    Pow2(n - k) - 1
  }

  /** The loop's (bit counter, weight counter) pair at the start of
      iteration i: it starts at (0, -1); each iteration first wraps the
      pair to (0, weight + 1) when the bit counter has reached n, and then
      advances the bit counter. */
  function Counters(n: int, i: nat): (p: (int, int))
    ensures n > 0 ==> 0 <= p.0 <= n && p.1 >= -1
  {
    if i == 0 then (0, -1)
    else
      var (ic, wc) := Counters(n, i - 1);
      if ic == n then (1, wc + 1) else (ic + 1, wc)
  }

  /** The error vector the table loop tries at iteration i: a zero vector,
      or at a wrap the weight counter's prefix of ones, with the bit
      counter's position set to 1. */
  function Candidate(n: int, i: nat): (v: seq<int>)
    requires n > 0
    ensures |v| == n && IsBits(v)
  {
    CountersBounds(n, i);
    var (ic, wc) := Counters(n, i);
    if ic == n then Prefix(n, wc + 1)[0 := 1] else Zeros(n)[ic := 1]
  }

  /** The syndrome of the candidate tried at iteration j. */
  function SyndromeAt(h: seq<seq<int>>, cols: nat, n: nat, j: nat): (s: seq<int>)
    requires n > 0 && IsMatrix(h, n, cols)
    ensures |s| == cols && IsBits(s)
  {
    VecMatMod2(Candidate(n, j), h, cols)
  }

  /** Inserting (key, value) pairs in order into a dictionary, each only
      if its key is not yet present: `if key not in d: d[key] = value`. */
  function FirstWins<K, V>(entries: seq<(K, V)>): (d: map<K, V>)
    ensures |d| <= |entries|
  {
    if |entries| == 0 then map[]
    else
      var t := FirstWins(entries[..|entries| - 1]);
      var (key, value) := entries[|entries| - 1];
      if key in t then t else t[key := value]
  }

  /** The (syndrome, candidate) pairs of the first m iterations. */
  function CandidateEntries(h: seq<seq<int>>, cols: nat, n: nat, m: nat): (e: seq<(seq<int>, seq<int>)>)
    requires n > 0 || m == 0
    requires IsMatrix(h, n, cols)
    ensures |e| == m
  {
    seq(m, j requires 0 <= j < m => (SyndromeAt(h, cols, n, j), Candidate(n, j)))
  }

  /** The syndrome table after the first m iterations of the loop: each
      iteration adds its candidate under the candidate's syndrome unless
      that syndrome is already a key. */
  function TableAfter(h: seq<seq<int>>, cols: nat, n: nat, m: nat): (t: map<seq<int>, seq<int>>)
    requires n > 0 || m == 0
    requires IsMatrix(h, n, cols)
    ensures |t| <= m
  {
    if m == 0 then map[]
    else
      var t := TableAfter(h, cols, n, m - 1);
      var s := SyndromeAt(h, cols, n, m - 1);
      if s in t then t else t[s := Candidate(n, m - 1)]
  }

  /** The loop's table is the first-writer-wins dictionary of its
      (syndrome, candidate) pairs. */
  lemma {:induction false} TableAfterEntries(h: seq<seq<int>>, cols: nat, n: nat, m: nat)
    requires n > 0 || m == 0
    requires IsMatrix(h, n, cols)
    ensures TableAfter(h, cols, n, m) == FirstWins(CandidateEntries(h, cols, n, m))
  {
    if m > 0 {
      TableAfterEntries(h, cols, n, m - 1);
      assert CandidateEntries(h, cols, n, m)[..m - 1] == CandidateEntries(h, cols, n, m - 1);
    }
  }

  /** The table the code builds for parameters (k, n). */
  function CodeTable(k: int, n: int): (t: map<seq<int>, seq<int>>)
    requires ParamsOk(k, n)
    ensures forall s :: s in t ==> |t[s]| == n
  {
    TableEntries(ParityMatrix(k, n), n - k, n, TableSize(k, n));
    TableAfter(ParityMatrix(k, n), n - k, n, TableSize(k, n))
  }

  // ---------------------------------------------------------------------
  // Matrix structure

  /** G is systematic: row r is e_r followed by row r of H's top block, so
      H's first k rows are exactly G's columns k .. n-1. */
  lemma GeneratorRows(k: int, n: int, r: int)
    requires ParamsOk(k, n) && 0 <= r < k
    ensures GenMatrix(k, n)[r][..k] == Identity(k)[r]
    ensures GenMatrix(k, n)[r][k..] == ParityMatrix(k, n)[r]
  {
    var g := GenMatrix(k, n)[r];
    assert g[..k] == Unit(k, r);
    assert g[k..] == ParityMatrix(k, n)[r] by {
      forall c | 0 <= c < n - k
        ensures g[k..][c] == ParityMatrix(k, n)[r][c]
      {
        assert g[k..][c] == g[k + c];
      }
    }
  }

  /** H's last n - k rows are the identity I_{n-k}. */
  lemma ParityBottomIdentity(k: int, n: int)
    requires ParamsOk(k, n)
    ensures ParityMatrix(k, n)[k..] == Identity(n - k)
  {
    var h := ParityMatrix(k, n);
    forall r | 0 <= r < n - k
      ensures h[k..][r] == Identity(n - k)[r]
    {
      assert h[k..][r] == h[k + r];
    }
  }

  /** Column c of H is column c of A on top of e_c. */
  lemma ParityColumn(k: int, n: int, c: int)
    requires ParamsOk(k, n) && 0 <= c < n - k
    ensures Column(ParityMatrix(k, n), c)
         == Column(ParityMatrix(k, n)[..k], c) + Unit(n - k, c)
  {
    var h := ParityMatrix(k, n);
    var top, bottom := Column(h[..k], c), Unit(n - k, c);
    forall r | 0 <= r < n
      ensures Column(h, c)[r] == (top + bottom)[r]
    {
      if r < k {
        assert (top + bottom)[r] == top[r];
      } else {
        assert (top + bottom)[r] == bottom[r - k];
      }
    }
  }

  /** Column k + c of G is column c of H's top block. */
  lemma GeneratorColumn(k: int, n: int, c: int)
    requires ParamsOk(k, n) && 0 <= c < n - k
    ensures Column(GenMatrix(k, n), k + c) == Column(ParityMatrix(k, n)[..k], c)
  {
  }

  /** A vector w whose bit k + c is the parity of its first k bits against
      `top` has an even dot product with the column `top` + e_c. */
  lemma CheckColumnEven(w: seq<int>, top: seq<int>, k: nat, cols: nat, c: nat)
    requires |w| == k + cols && |top| == k && c < cols
    requires w[k + c] == Dot(w[..k], top) % 2
    ensures Dot(w, top + Unit(cols, c)) % 2 == 0
  {
    assert w == w[..k] + w[k..];
    DotConcat(w[..k], w[k..], top, Unit(cols, c));
    DotUnit(w[k..], c);
    assert w[k..][c] == w[k + c];
  }

  /** Every row of G has zero syndrome: G H = 0 (mod 2). */
  lemma {:induction false} GeneratorParityOrthogonal(k: int, n: int, r: int)
    requires ParamsOk(k, n) && 0 <= r < k
    ensures VecMatMod2(GenMatrix(k, n)[r], ParityMatrix(k, n), n - k) == Zeros(n - k)
  {
    var g, h := GenMatrix(k, n), ParityMatrix(k, n);
    GeneratorRows(k, n, r);
    var syndrome := VecMatMod2(g[r], h, n - k);
    forall c | 0 <= c < n - k
      ensures syndrome[c] == 0
    {
      ParityColumn(k, n, c);
      var top := Column(h[..k], c);
      DotUnit(top, r);
      assert g[r][..k] == Unit(k, r);
      CheckColumnEven(g[r], top, k, n - k, c);
    }
  }

  /** Encoding is systematic: the first k bits of the codeword m G are m. */
  lemma EncodeSystematic(k: int, n: int, m: seq<int>)
    requires ParamsOk(k, n) && |m| == k && IsBits(m)
    ensures VecMatMod2(m, GenMatrix(k, n), n)[..k] == m
  {
    var g := GenMatrix(k, n);
    forall c | 0 <= c < k
      ensures VecMatMod2(m, g, n)[c] == m[c]
    {
      assert Column(g, c) == Unit(k, c);
      DotUnit(m, c);
    }
  }

  /** Bit c of the syndrome of a codeword m G is zero. */
  lemma CodewordSyndromeBit(k: int, n: int, m: seq<int>, c: int)
    requires ParamsOk(k, n) && |m| == k && IsBits(m) && 0 <= c < n - k
    ensures VecMatMod2(VecMatMod2(m, GenMatrix(k, n), n), ParityMatrix(k, n), n - k)[c] == 0
  {
    var h := ParityMatrix(k, n);
    var w := VecMatMod2(m, GenMatrix(k, n), n);
    EncodeSystematic(k, n, m);
    ParityColumn(k, n, c);
    GeneratorColumn(k, n, c);
    CheckColumnEven(w, Column(h[..k], c), k, n - k, c);
  }

  /** Every codeword m G has zero syndrome. */
  lemma CodewordSyndromeZero(k: int, n: int, m: seq<int>)
    requires ParamsOk(k, n) && |m| == k && IsBits(m)
    ensures VecMatMod2(VecMatMod2(m, GenMatrix(k, n), n), ParityMatrix(k, n), n - k)
         == Zeros(n - k)
  {
    var syndrome := VecMatMod2(VecMatMod2(m, GenMatrix(k, n), n), ParityMatrix(k, n), n - k);
    forall c | 0 <= c < n - k
      ensures syndrome[c] == 0
    {
      CodewordSyndromeBit(k, n, m, c);
    }
  }

  // ---------------------------------------------------------------------
  // Candidate enumeration

  /** In the first round the candidate is exactly the unit vector e_i. */
  lemma CandidateFirstRound(n: int, i: nat)
    requires 0 <= i < n
    ensures Candidate(n, i) == Unit(n, i)
  {
    CandidateClosedForm(n, i);
    DivModUnique(i, n, 0, i);
  }

  /** Outside a wrap the candidate has Hamming weight 1; at a wrap it has
      ones on [0, max(i/n - 1, 1)), clamped to n. */
  lemma CandidateWeight(n: int, i: nat)
    requires n > 0
    ensures !(i >= n && i % n == 0) ==> Weight(Candidate(n, i)) == 1
    ensures i >= n && i % n == 0 ==>
              Candidate(n, i) == Prefix(n, Max(i / n - 1, 1))
              && Weight(Candidate(n, i)) == Min(Max(i / n - 1, 1), n)
  {
    CandidateClosedForm(n, i);
    if i >= n && i % n == 0 {
      WeightPrefix(n, Max(i / n - 1, 1));
    } else {
      WeightUnit(n, i % n);
    }
  }

  lemma {:induction false} MulAtLeast(n: int, d: int)
    requires n > 0 && d >= 1
    ensures n * d >= n
  {
    if d > 1 {
      MulAtLeast(n, d - 1);
      assert n * d == n * (d - 1) + n;
    }
  }

  lemma DivModUnique(i: int, n: int, q: int, r: int)
    requires n > 0 && 0 <= r < n && i == r + n * q
    ensures i % n == r && i / n == q
  {
    var d := i / n - q;
    assert n * (i / n) + i % n == i;
    assert n * d == r - i % n by {
      assert n * d == n * (i / n) - n * q;
    }
    if d >= 1 {
      MulAtLeast(n, d);
      assert false;
    } else if d <= -1 {
      MulAtLeast(n, -d);
      assert false;
    }
  }

  /** r * n, written as r rounds of n iterations. */
  function Rounds(n: nat, r: nat): nat {
    if r == 0 then 0 else Rounds(n, r - 1) + n
  }

  lemma {:induction false} RoundsIsProduct(n: nat, r: nat)
    ensures Rounds(n, r) == n * r
  {
    if r > 0 {
      RoundsIsProduct(n, r - 1);
      assert n * r == n * (r - 1) + n;
    }
  }

  /** The counters stay in range and count the iterations: i is the bit
      counter plus n for every completed round. */
  lemma {:induction false} CountersBounds(n: int, i: nat)
    requires n > 0
    ensures var (ic, wc) := Counters(n, i);
            0 <= ic <= n && wc >= -1 && (wc >= 0 ==> ic >= 1)
            && i == ic + Rounds(n, wc + 1)
  {
    if i > 0 {
      CountersBounds(n, i - 1);
    }
  }

  /** Closed form of the enumeration. Iterations 0 .. n-1 try the unit
      vectors e_0 .. e_{n-1}; after that the bit counter cycles through
      0 .. n-1 again, and at each wrap (i a positive multiple of n) the
      vector has ones on [0, max(i/n - 1, 1)): the weight counter's prefix
      plus bit 0. */
  lemma CandidateClosedForm(n: int, i: nat)
    requires n > 0
    ensures Candidate(n, i) == if i >= n && i % n == 0 then Prefix(n, Max(i / n - 1, 1)) else Unit(n, i % n)
  {
    CountersBounds(n, i);
    var (ic, wc) := Counters(n, i);
    RoundsIsProduct(n, wc + 1);
    if ic == n {
      assert i == 0 + n * (wc + 2) by {
        assert n * (wc + 2) == n * (wc + 1) + n;
      }
      DivModUnique(i, n, wc + 2, 0);
      assert Prefix(n, wc + 1)[0 := 1] == Prefix(n, Max(wc + 1, 1));
    } else {
      DivModUnique(i, n, wc + 1, ic);
      if wc >= 0 {
        MulAtLeast(n, wc + 1);
      }
      assert Zeros(n)[ic := 1] == Unit(n, ic);
    }
  }

  // ---------------------------------------------------------------------
  // The syndrome table

  /** A key is present exactly when some entry carries it. */
  lemma {:induction false} FirstWinsKeys<K, V>(entries: seq<(K, V)>, key: K)
    ensures key in FirstWins(entries) <==> exists j :: 0 <= j < |entries| && entries[j].0 == key
  {
    if |entries| > 0 {
      var init := entries[..|entries| - 1];
      FirstWinsKeys(init, key);
      assert forall j :: 0 <= j < |init| ==> init[j] == entries[j];
      if entries[|entries| - 1].0 != key {
        assert (exists j :: 0 <= j < |entries| && entries[j].0 == key)
           ==> (exists j :: 0 <= j < |init| && init[j].0 == key);
      }
    }
  }

  /** First writer wins: the value stored under a key is that of the
      earliest entry carrying it. */
  lemma {:induction false} FirstWinsValue<K, V>(entries: seq<(K, V)>, j: nat)
    requires j < |entries|
    requires forall j' :: 0 <= j' < j ==> entries[j'].0 != entries[j].0
    ensures entries[j].0 in FirstWins(entries)
    ensures FirstWins(entries)[entries[j].0] == entries[j].1
  {
    var init := entries[..|entries| - 1];
    assert forall i :: 0 <= i < |init| ==> init[i] == entries[i];
    if j == |entries| - 1 {
      FirstWinsKeys(init, entries[j].0);
    } else {
      FirstWinsValue(init, j);
    }
  }

  /** Every stored pair is one of the entries; there are at most as many
      keys as entries. */
  lemma {:induction false} FirstWinsStored<K, V>(entries: seq<(K, V)>)
    ensures |FirstWins(entries)| <= |entries|
    ensures forall key :: key in FirstWins(entries) ==>
              exists j :: 0 <= j < |entries| && entries[j] == (key, FirstWins(entries)[key])
  {
    if |entries| > 0 {
      var init := entries[..|entries| - 1];
      FirstWinsStored(init);
      assert forall i :: 0 <= i < |init| ==> init[i] == entries[i];
    }
  }

  /** Entries added later never overwrite a stored key. */
  lemma {:induction false} FirstWinsPrefix<K, V>(entries: seq<(K, V)>, m: nat)
    requires m <= |entries|
    ensures forall key :: key in FirstWins(entries[..m]) ==>
              key in FirstWins(entries) && FirstWins(entries)[key] == FirstWins(entries[..m])[key]
    decreases |entries| - m
  {
    if m < |entries| {
      var init := entries[..|entries| - 1];
      FirstWinsPrefix(init, m);
      assert init[..m] == entries[..m];
    } else {
      assert entries[..m] == entries;
    }
  }

  /** Every entry s -> e of the table has e H = s, with e a non-zero 0/1
      vector of length n and s of length cols; there are at most m keys,
      and at least one once an iteration has run. */
  lemma TableEntries(h: seq<seq<int>>, cols: nat, n: nat, m: nat)
    requires n > 0 || m == 0
    requires IsMatrix(h, n, cols)
    ensures |TableAfter(h, cols, n, m)| <= m
    ensures m > 0 ==> |TableAfter(h, cols, n, m)| > 0
    ensures forall s :: s in TableAfter(h, cols, n, m) ==>
              var e := TableAfter(h, cols, n, m)[s];
              |s| == cols && |e| == n && IsBits(e) && e != Zeros(n)
              && VecMatMod2(e, h, cols) == s
  {
    TableAfterEntries(h, cols, n, m);
    if m > 0 {
      TableNonEmpty(h, cols, n, m);
    }
    var entries := CandidateEntries(h, cols, n, m);
    FirstWinsStored(entries);
    forall s | s in TableAfter(h, cols, n, m)
      ensures var e := TableAfter(h, cols, n, m)[s];
              |s| == cols && |e| == n && IsBits(e) && e != Zeros(n)
              && VecMatMod2(e, h, cols) == s
    {
      var j :| 0 <= j < m && entries[j] == (s, TableAfter(h, cols, n, m)[s]);
      var e := Candidate(n, j);
      assert e != Zeros(n) by {
        CandidateClosedForm(n, j);
        assert e[j % n] == 1 && Zeros(n)[j % n] == 0;
      }
    }
  }

  /** s is a key after m iterations exactly when one of the first m
      candidates has syndrome s. */
  lemma TableKeys(h: seq<seq<int>>, cols: nat, n: nat, m: nat, s: seq<int>)
    requires n > 0 || m == 0
    requires IsMatrix(h, n, cols)
    ensures s in TableAfter(h, cols, n, m) <==> exists j :: 0 <= j < m && SyndromeAt(h, cols, n, j) == s
  {
    TableAfterEntries(h, cols, n, m);
    var entries := CandidateEntries(h, cols, n, m);
    FirstWinsKeys(entries, s);
    assert forall j :: 0 <= j < m ==> entries[j].0 == SyndromeAt(h, cols, n, j);
  }

  /** First writer wins: when candidate j is the earliest whose syndrome is
      s, the table maps s to candidate j from iteration j + 1 on. */
  lemma TableFirstWriter(h: seq<seq<int>>, cols: nat, n: nat, m: nat, j: nat)
    requires n > 0 && IsMatrix(h, n, cols) && j < m
    requires forall j' :: 0 <= j' < j ==> SyndromeAt(h, cols, n, j') != SyndromeAt(h, cols, n, j)
    ensures SyndromeAt(h, cols, n, j) in TableAfter(h, cols, n, m)
    ensures TableAfter(h, cols, n, m)[SyndromeAt(h, cols, n, j)] == Candidate(n, j)
  {
    TableAfterEntries(h, cols, n, m);
    var entries := CandidateEntries(h, cols, n, m);
    assert forall i :: 0 <= i < m ==> entries[i].0 == SyndromeAt(h, cols, n, i);
    FirstWinsValue(entries, j);
  }

  /** A stored entry is never overwritten by later iterations. */
  lemma TableNeverOverwritten(h: seq<seq<int>>, cols: nat, n: nat, m: nat, m': nat)
    requires n > 0 || m' == 0
    requires IsMatrix(h, n, cols) && m <= m'
    ensures forall s :: s in TableAfter(h, cols, n, m) ==>
              s in TableAfter(h, cols, n, m') && TableAfter(h, cols, n, m')[s] == TableAfter(h, cols, n, m)[s]
  {
    TableAfterEntries(h, cols, n, m);
    TableAfterEntries(h, cols, n, m');
    var entries := CandidateEntries(h, cols, n, m');
    assert entries[..m] == CandidateEntries(h, cols, n, m);
    FirstWinsPrefix(entries, m);
  }

  /** The first candidate's syndrome is always stored. */
  lemma TableNonEmpty(h: seq<seq<int>>, cols: nat, n: nat, m: nat)
    requires n > 0 && IsMatrix(h, n, cols) && m >= 1
    ensures |TableAfter(h, cols, n, m)| > 0
  {
    TableNeverOverwritten(h, cols, n, 1, m);
    assert SyndromeAt(h, cols, n, 0) in TableAfter(h, cols, n, 1);
  }

  /** The code's table: at most 2^(n-k) - 1 keys of length n - k, each
      mapped to a non-zero 0/1 error vector of length n whose syndrome
      under H is that key; non-empty when n > k. */
  lemma CodeTableProperties(k: int, n: int)
    requires ParamsOk(k, n)
    ensures |CodeTable(k, n)| <= Pow2(n - k) - 1
    ensures k < n ==> |CodeTable(k, n)| > 0
    ensures forall s :: s in CodeTable(k, n) ==>
              var e := CodeTable(k, n)[s];
              |s| == n - k && |e| == n && IsBits(e) && e != Zeros(n)
              && VecMatMod2(e, ParityMatrix(k, n), n - k) == s
  {
    TableEntries(ParityMatrix(k, n), n - k, n, TableSize(k, n));
  }

  /** Every row of H is non-zero when H has at least two columns: a row
      of A has a one off the diagonal, a row of I_{n-k} has its own one. */
  lemma ParityRowNonZero(k: int, n: int, p: int)
    requires ParamsOk(k, n) && n - k >= 2 && 0 <= p < n
    ensures ParityMatrix(k, n)[p] != Zeros(n - k)
  {
    var row := ParityMatrix(k, n)[p];
    if p < k {
      var c := if p == 0 then 1 else 0;
      assert row[c] == 1;
    } else {
      assert row[p - k] == 1;
    }
  }

  /** In the first three rounds every candidate is a unit vector: the
      wraps at i = n and i = 2n both try ones on [0, 1), which is e_0, so
      iteration i tries e_{i mod n}. */
  lemma CandidateEarlyUnit(n: int, i: nat)
    requires n > 0 && i < 3 * n
    ensures Candidate(n, i) == Unit(n, i % n)
  {
    CandidateClosedForm(n, i);
    if i < n {
      DivModUnique(i, n, 0, i);
    } else if i < 2 * n {
      DivModUnique(i, n, 1, i - n);
    } else {
      DivModUnique(i, n, 2, i - 2 * n);
    }
    assert Prefix(n, 1) == Unit(n, 0);
  }

  /** The code has no zero-syndrome entry whenever H has at least two
      columns and the loop stops within its first three rounds
      (2^(n-k) - 1 <= 3n): every candidate tried is then a unit vector e_p,
      whose syndrome is row p of H, and no row of H is zero. */
  lemma ZeroSyndromeAbsent(k: int, n: int)
    requires ParamsOk(k, n) && n - k >= 2 && Pow2(n - k) - 1 <= 3 * n
    ensures Zeros(n - k) !in CodeTable(k, n)
  {
    var h, cols, m := ParityMatrix(k, n), n - k, TableSize(k, n);
    TableKeys(h, cols, n, m, Zeros(cols));
    forall j | 0 <= j < m
      ensures SyndromeAt(h, cols, n, j) != Zeros(cols)
    {
      var p := j % n;
      CandidateEarlyUnit(n, j);
      VecMatUnit(n, p, h, cols);
      ParityRowNonZero(k, n, p);
    }
  }

  /** For k = 8 the bound holds exactly for n = 10 .. 13: those four codes
      have no zero-syndrome entry. */
  lemma ZeroSyndromeAbsentEight(n: int)
    requires 10 <= n <= 13
    ensures Zeros(n - 8) !in CodeTable(8, n)
  {
    assert Pow2(2) == 4 && Pow2(3) == 8 && Pow2(4) == 16 && Pow2(5) == 32;
    ZeroSyndromeAbsent(8, n);
  }

  // ---------------------------------------------------------------------
  // Wrap candidates and the zero syndrome

  /** The mod-2 sum of the first j rows of h. */
  function RowSum(h: seq<seq<int>>, cols: nat, j: nat): (s: seq<int>)
    requires j <= |h| && forall r :: 0 <= r < |h| ==> |h[r]| == cols
    ensures |s| == cols && IsBits(s)
  {
    if j == 0 then Zeros(cols) else AddMod2(RowSum(h, cols, j - 1), h[j - 1])
  }

  /** The syndrome of ones on [0, j) is the mod-2 sum of rows 0 .. j-1. */
  lemma {:induction false} PrefixRowSum(h: seq<seq<int>>, n: nat, cols: nat, j: nat)
    requires IsBitMatrix(h, n, cols) && j <= n
    ensures VecMatMod2(Prefix(n, j), h, cols) == RowSum(h, cols, j)
  {
    if j == 0 {
      forall c | 0 <= c < cols
        ensures VecMatMod2(Prefix(n, 0), h, cols)[c] == 0
      {
        DotZeroRight(Column(h, c), Prefix(n, 0));
        DotSymmetric(Column(h, c), Prefix(n, 0));
      }
    } else {
      assert Prefix(n, j) == AddMod2(Prefix(n, j - 1), Unit(n, j - 1));
      VecMatLinear(Prefix(n, j - 1), Unit(n, j - 1), h, cols);
      VecMatUnit(n, j - 1, h, cols);
      PrefixRowSum(h, n, cols, j - 1);
    }
  }

  /** Column c of the sum of H's first j rows (rows of A, j <= k): every
      row but row c has a one there. */
  lemma ParityRowSum(k: int, n: int, j: nat, c: int)
    requires ParamsOk(k, n) && j <= k && 0 <= c < n - k
    ensures RowSum(ParityMatrix(k, n), n - k, j)[c] == (j - if c < j then 1 else 0) % 2
  {
    var h := ParityMatrix(k, n);
    forall r | 0 <= r < j
      ensures h[r][c] == if c == r then 0 else 1
    {
    }
    ColumnRowSum(h, n - k, j, c);
  }

  /** The induction behind ParityRowSum, over any matrix whose first j
      rows have a zero in column c exactly on the diagonal. */
  lemma {:induction false} ColumnRowSum(h: seq<seq<int>>, cols: nat, j: nat, c: nat)
    requires j <= |h| && forall r :: 0 <= r < |h| ==> |h[r]| == cols
    requires c < cols
    requires forall r :: 0 <= r < j ==> h[r][c] == if c == r then 0 else 1
    ensures RowSum(h, cols, j)[c] == (j - if c < j then 1 else 0) % 2
  {
    if j > 0 {
      ColumnRowSum(h, cols, j - 1, c);
      RowSumStep(h, cols, j, c);
      var b := if c == j - 1 then 0 else 1;
      var d := if c < j - 1 then 1 else 0;
      ModTwoShift(j - 1 - d, b);
    }
  }

  lemma RowSumStep(h: seq<seq<int>>, cols: nat, j: nat, c: nat)
    requires 0 < j <= |h| && forall r :: 0 <= r < |h| ==> |h[r]| == cols
    requires c < cols
    ensures RowSum(h, cols, j)[c] == (RowSum(h, cols, j - 1)[c] + h[j - 1][c]) % 2
  {
  }

  lemma ModTwoShift(a: int, b: int)
    ensures (a % 2 + b) % 2 == (a + b) % 2
  {
  }

  /** A wrap candidate with ones on [0, w), w <= k, has zero syndrome
      exactly when w is odd and at least n - k: each column of H's top
      block then sums w - 1 ones. */
  lemma PrefixSyndromeZeroIff(k: int, n: int, w: int)
    requires ParamsOk(k, n) && n - k >= 1 && 1 <= w <= k
    ensures VecMatMod2(Prefix(n, w), ParityMatrix(k, n), n - k) == Zeros(n - k)
            <==> w % 2 == 1 && n - k <= w
  {
    var h, cols := ParityMatrix(k, n), n - k;
    PrefixRowSum(h, n, cols, w);
    forall r, c | 0 <= r < w && 0 <= c < cols
      ensures h[r][c] == if c == r then 0 else 1
    {
    }
    RowSumZeroIff(h, cols, w);
  }

  /** The sum of the first w rows of a matrix shaped like A on those rows
      is zero exactly when w is odd and covers every column. */
  lemma RowSumZeroIff(h: seq<seq<int>>, cols: nat, w: nat)
    requires 1 <= w <= |h| && forall r :: 0 <= r < |h| ==> |h[r]| == cols
    requires 1 <= cols
    requires forall r, c :: 0 <= r < w && 0 <= c < cols ==> h[r][c] == if c == r then 0 else 1
    ensures RowSum(h, cols, w) == Zeros(cols) <==> w % 2 == 1 && cols <= w
  {
    var s := RowSum(h, cols, w);
    if w % 2 == 0 {
      ColumnRowSum(h, cols, w, 0);
      assert s[0] != 0;
    } else if w < cols {
      ColumnRowSum(h, cols, w, w);
      assert s[w] != 0;
    } else {
      forall c | 0 <= c < cols
        ensures s[c] == 0
      {
        ColumnRowSum(h, cols, w, c);
      }
      assert s == Zeros(cols);
    }
  }

  /** Every row of H but row 0 is non-zero as soon as H has a column. */
  lemma ParityRowNonZeroFromOne(k: int, n: int, p: int)
    requires ParamsOk(k, n) && n - k >= 1 && 1 <= p < n
    ensures ParityMatrix(k, n)[p] != Zeros(n - k)
  {
    var row := ParityMatrix(k, n)[p];
    if p < k {
      assert row[0] == 1;
    } else {
      assert row[p - k] == 1;
    }
  }

  /** When the zero syndrome is a key, its error vector has bit 0 set: it
      is e_0 or a wrap's prefix of ones, since no other unit vector has
      zero syndrome. */
  lemma ZeroEntryFirstBit(k: int, n: int)
    requires ParamsOk(k, n) && Zeros(n - k) in CodeTable(k, n)
    ensures n > 0 && CodeTable(k, n)[Zeros(n - k)][0] == 1
  {
    var h, cols, m := ParityMatrix(k, n), n - k, TableSize(k, n);
    TableAfterEntries(h, cols, n, m);
    var entries := CandidateEntries(h, cols, n, m);
    FirstWinsStored(entries);
    var j :| 0 <= j < m && entries[j] == (Zeros(cols), CodeTable(k, n)[Zeros(cols)]);
    assert cols >= 1;
    CandidateClosedForm(n, j);
    if !(j >= n && j % n == 0) && j % n != 0 {
      VecMatUnit(n, j % n, h, cols);
      ParityRowNonZeroFromOne(k, n, j % n);
    }
  }

  /** The (8, 8) code tries no candidate: its table is empty. */
  lemma CodeTableEightEight()
    ensures CodeTable(8, 8) == map[]
  {
    assert TableSize(8, 8) == 0;
  }

  /** In the (8, 9) code row 0 of H is zero, so the first candidate e_0 is
      stored under the zero syndrome. */
  lemma ZeroSyndromeKeyEightNine()
    ensures Zeros(1) in CodeTable(8, 9) && CodeTable(8, 9)[Zeros(1)] == Unit(9, 0)
  {
    var h := ParityMatrix(8, 9);
    assert Pow2(1) == 2;
    EarlySyndromeIsRow(h, 1, 9, 0);
    assert h[0] == Zeros(1);
    TableFirstWriter(h, 1, 9, TableSize(8, 9), 0);
    CandidateFirstRound(9, 0);
  }

  /** In the (8, 15) code the wrap at iteration 120 tries ones on [0, 7),
      whose syndrome is zero: seven rows of A sum to zero. */
  lemma ZeroSyndromeKeyEightFifteen()
    ensures Zeros(7) in CodeTable(8, 15)
  {
    var h := ParityMatrix(8, 15);
    assert Pow2(7) == 128;
    CandidateClosedForm(15, 120);
    assert Candidate(15, 120) == Prefix(15, 7);
    PrefixSyndromeZeroIff(8, 15, 7);
    assert SyndromeAt(h, 7, 15, 120) == Zeros(7);
    TableKeys(h, 7, 15, TableSize(8, 15), Zeros(7));
  }

  /** The (8, 14) code has no zero-syndrome key, beyond the unit-vector
      bound: its wrap candidates have 1, 2 or 3 ones, fewer than the six
      it would take. */
  lemma ZeroSyndromeAbsentEightFourteen()
    ensures Zeros(6) !in CodeTable(8, 14)
  {
    var h := ParityMatrix(8, 14);
    assert Pow2(6) == 64;
    TableKeys(h, 6, 14, TableSize(8, 14), Zeros(6));
    forall j | 0 <= j < 63
      ensures SyndromeAt(h, 6, 14, j) != Zeros(6)
    {
      SyndromeNonZeroEightFourteen(j);
    }
  }

  /** Each of the 63 candidates of the (8, 14) code has a non-zero
      syndrome. */
  lemma SyndromeNonZeroEightFourteen(j: nat)
    requires j < 63
    ensures SyndromeAt(ParityMatrix(8, 14), 6, 14, j) != Zeros(6)
  {
    var h := ParityMatrix(8, 14);
    CandidateClosedForm(14, j);
    if j >= 14 && j % 14 == 0 {
      var w := Max(j / 14 - 1, 1);
      assert 1 <= w <= 3;
      PrefixSyndromeZeroIff(8, 14, w);
    } else {
      VecMatUnit(14, j % 14, h, 6);
      ParityRowNonZero(8, 14, j % 14);
    }
  }

  /** Before the first wrap, candidate j's syndrome is row j of H. */
  lemma EarlySyndromeIsRow(h: seq<seq<int>>, cols: nat, n: nat, j: nat)
    requires j < n && IsBitMatrix(h, n, cols)
    ensures SyndromeAt(h, cols, n, j) == h[j]
  {
    CandidateFirstRound(n, j);
    VecMatUnit(n, j, h, cols);
  }

  /** In the (8, 12) code rows 4 and 5 of H coincide, and the table keeps
      e_4 for that syndrome. */
  lemma Table812RowFour()
    ensures ParityMatrix(8, 12)[4] == ParityMatrix(8, 12)[5]
    ensures ParityMatrix(8, 12)[4] in CodeTable(8, 12)
    ensures CodeTable(8, 12)[ParityMatrix(8, 12)[4]] == Unit(12, 4)
  {
    var h := ParityMatrix(8, 12);
    assert h[4] == h[5];
    assert Pow2(4) == 16;
    forall j | 0 <= j < 4
      ensures SyndromeAt(h, 4, 12, j) != SyndromeAt(h, 4, 12, 4)
    {
      EarlySyndromeIsRow(h, 4, 12, j);
      EarlySyndromeIsRow(h, 4, 12, 4);
      assert h[j][j] == 0 && h[4][j] == 1;
    }
    TableFirstWriter(h, 4, 12, TableSize(8, 12), 4);
    EarlySyndromeIsRow(h, 4, 12, 4);
    CandidateFirstRound(12, 4);
  }

  /** Rows 4 and 5 of A coincide in the (8, 12) code, so the message with
      bits 4 and 5 set encodes to e_4 + e_5, a codeword of weight 2. */
  lemma WeightTwoCodeword()
    ensures VecMatMod2(AddMod2(Unit(8, 4), Unit(8, 5)), GenMatrix(8, 12), 12) == AddMod2(Unit(12, 4), Unit(12, 5))
  {
    var g := GenMatrix(8, 12);
    VecMatLinear(Unit(8, 4), Unit(8, 5), g, 12);
    VecMatUnit(8, 4, g, 12);
    VecMatUnit(8, 5, g, 12);
    assert AddMod2(g[4], g[5]) == AddMod2(Unit(12, 4), Unit(12, 5));
  }

  // ---------------------------------------------------------------------
  // The class

  /** linear_code.py's LinearCode: the three artefacts are fields that
      start out empty and are built on first request. */
  class LinearCode {
    const k: int
    const n: int
    var generatorMat: seq<seq<int>>
    var parityCheck: seq<seq<int>>
    var syndromeTable: map<seq<int>, seq<int>>
    /** The misspelled attribute that `get_syndrome_decoding_table` assigns. */
    var synromeTable: map<seq<int>, seq<int>>

    /** A field is either still empty or holds its final value, and each
        artefact is built only after the ones it is derived from. */
    ghost predicate Valid()
      reads this
    {
      && (|generatorMat| > 0 ==> ParamsOk(k, n) && generatorMat == GenMatrix(k, n))
      && (|parityCheck| > 0 ==>
            ParamsOk(k, n) && generatorMat == GenMatrix(k, n) && parityCheck == ParityMatrix(k, n))
      && (|syndromeTable| > 0 ==>
            ParamsOk(k, n) && generatorMat == GenMatrix(k, n) && parityCheck == ParityMatrix(k, n)
            && syndromeTable == CodeTable(k, n))
    }

    constructor (k: int, n: int)
      ensures this.k == k && this.n == n
      ensures generatorMat == [] && parityCheck == [] && syndromeTable == map[] && synromeTable == map[]
      ensures Valid()
    {
      this.k, this.n := k, n;
      generatorMat, parityCheck, syndromeTable := [], [], map[];
      synromeTable := map[];
    }

    /** Zero matrix, identity on the left, A (ones with its diagonal
        cleared by a loop) on the right. */
    method GeneratorMatrix() returns (g: seq<seq<int>>)
      requires Valid() && ParamsOk(k, n)
      modifies this`generatorMat
      ensures Valid()
      ensures g == generatorMat == GenMatrix(k, n)
    {
      var gm := ZeroMatrix(k, n);
      var aMatrix := seq(k, _ => seq(n - k, _ => 1));
      var identityI := Identity(k);
      gm := PasteColumns(gm, 0, identityI);
      for x := 0 to n - k
        invariant IsMatrix(aMatrix, k, n - k)
        invariant forall r, c :: 0 <= r < k && 0 <= c < n - k ==>
                    aMatrix[r][c] == if c == r && c < x then 0 else 1
      {
        aMatrix := aMatrix[x := aMatrix[x][x := 0]];
      }
      gm := PasteColumns(gm, k, aMatrix);
      PastedGenerator(k, n, aMatrix);
      generatorMat := gm;
      g := gm;
    }

    /** Zero matrix, G's right block as the top k rows, I_{n-k} below. */
    method ParityCheckMatrix() returns (p: seq<seq<int>>)
      requires Valid() && ParamsOk(k, n)
      modifies this`generatorMat, this`parityCheck
      ensures Valid()
      ensures generatorMat == GenMatrix(k, n)
      ensures p == parityCheck == ParityMatrix(k, n)
    {
      var g := GetGeneratorMatrix();
      p := ZeroMatrix(n, n - k);
      p := PasteRows(p, 0, RightColumns(g, k));
      p := PasteRows(p, k, Identity(n - k));
      PastedParity(k, n);
      parityCheck := p;
    }

    /** The counter-driven loop over 2^(n-k) - 1 candidates; a syndrome is
        stored with its candidate only if it is not yet a key. */
    method SyndromeDecodingTable() returns (table: map<seq<int>, seq<int>>)
      requires Valid() && ParamsOk(k, n)
      modifies this`generatorMat, this`parityCheck, this`syndromeTable
      ensures Valid()
      ensures generatorMat == GenMatrix(k, n) && parityCheck == ParityMatrix(k, n)
      ensures table == syndromeTable == CodeTable(k, n)
    {
      var parity := GetParityCheckMatrix();
      var size := Pow2(n - k) - 1;
      assert size > 0 ==> n > 0 by {
        if n - k == 0 {
          assert Pow2(n - k) == 1;
        }
      }
      syndromeTable := RunTableLoop(parity, n - k, n, size);
      table := syndromeTable;
    }

    /** Builds G only while the field is still empty. */
    method GetGeneratorMatrix() returns (g: seq<seq<int>>)
      requires Valid() && ParamsOk(k, n)
      modifies this`generatorMat
      ensures Valid()
      ensures g == generatorMat == GenMatrix(k, n)
      ensures |old(generatorMat)| > 0 ==> g == old(generatorMat)
    {
      if |generatorMat| == 0 {
        generatorMat := GeneratorMatrix();
      }
      g := generatorMat;
    }

    /** Builds H only while the field is still empty. */
    method GetParityCheckMatrix() returns (p: seq<seq<int>>)
      requires Valid() && ParamsOk(k, n)
      modifies this`generatorMat, this`parityCheck
      ensures Valid()
      ensures generatorMat == GenMatrix(k, n)
      ensures p == parityCheck == ParityMatrix(k, n)
      ensures |old(parityCheck)| > 0 ==> p == old(parityCheck) && generatorMat == old(generatorMat)
    {
      if |parityCheck| == 0 {
        parityCheck := ParityCheckMatrix();
      }
      p := parityCheck;
    }

    /** Builds the table only while the field is still empty. The rebuilt
        table lands in the misspelled field as well, but the table returned
        is the one `syndrome_decoding_table` stored in `syndromeTable`. */
    method GetSyndromeDecodingTable() returns (table: map<seq<int>, seq<int>>)
      requires Valid() && ParamsOk(k, n)
      modifies this`generatorMat, this`parityCheck, this`syndromeTable, this`synromeTable
      ensures Valid()
      ensures generatorMat == GenMatrix(k, n) && parityCheck == ParityMatrix(k, n)
      ensures table == syndromeTable == CodeTable(k, n)
      ensures |old(syndromeTable)| > 0 ==>
                && table == old(syndromeTable)
                && generatorMat == old(generatorMat) && parityCheck == old(parityCheck)
                && synromeTable == old(synromeTable)
      ensures |old(syndromeTable)| == 0 ==> synromeTable == syndromeTable
    {
      if |syndromeTable| == 0 {
        synromeTable := SyndromeDecodingTable();
      }
      table := syndromeTable;
    }
  }

  /** The slice assignments of `generator_matrix` produce [I_k | A]. */
  lemma PastedGenerator(k: int, n: int, a: seq<seq<int>>)
    requires ParamsOk(k, n) && IsMatrix(a, k, n - k)
    requires forall r, c :: 0 <= r < k && 0 <= c < n - k ==> a[r][c] == if c == r && c < n - k then 0 else 1
    ensures PasteColumns(PasteColumns(ZeroMatrix(k, n), 0, Identity(k)), k, a) == GenMatrix(k, n)
  {
    var g1 := PasteColumns(ZeroMatrix(k, n), 0, Identity(k));
    var g2 := PasteColumns(g1, k, a);
    forall r | 0 <= r < k
      ensures g2[r] == GenMatrix(k, n)[r]
    {
      assert g1[r] == Unit(k, r) + Zeros(n)[k..];
      assert g2[r] == Unit(k, r) + a[r];
    }
  }

  /** The slice assignments of `parity_check_matrix` produce [A ; I_{n-k}]. */
  lemma PastedParity(k: int, n: int)
    requires ParamsOk(k, n)
    ensures var p0 := ZeroMatrix(n, n - k);
            var p1 := PasteRows(p0, 0, RightColumns(GenMatrix(k, n), k));
            PasteRows(p1, k, Identity(n - k)) == ParityMatrix(k, n)
  {
    var g := GenMatrix(k, n);
    var p0 := ZeroMatrix(n, n - k);
    var p1 := PasteRows(p0, 0, RightColumns(g, k));
    var p2 := PasteRows(p1, k, Identity(n - k));
    assert p2 == RightColumns(g, k) + Identity(n - k) by {
      assert p1[..k] == RightColumns(g, k);
    }
    forall r | 0 <= r < k
      ensures RightColumns(g, k)[r] == ParityMatrix(k, n)[r]
    {
      GeneratorRows(k, n, r);
    }
    ParityBottomIdentity(k, n);
    assert ParityMatrix(k, n) == ParityMatrix(k, n)[..k] + ParityMatrix(k, n)[k..];
  }

  /** The loop of `syndrome_decoding_table` over `size` iterations, for
      a parity-check matrix h with n rows and cols columns: iterationCounter
      walks the bit positions, weightCounter grows at every wrap, and each
      candidate is stored under its syndrome unless that key is taken. */
  method RunTableLoop(h: seq<seq<int>>, cols: nat, n: nat, size: nat) returns (syndromeTable: map<seq<int>, seq<int>>)
    requires (n > 0 || size == 0) && IsMatrix(h, n, cols)
    ensures syndromeTable == TableAfter(h, cols, n, size)
  {
    var iterationCounter := 0;
    var weightCounter := -1;
    syndromeTable := map[];
    for i := 0 to size
      invariant 0 <= iterationCounter <= n
      invariant (iterationCounter, weightCounter) == Counters(n, i)
      invariant syndromeTable == TableAfter(h, cols, n, i)
    {
      var baseVector := Zeros(n);
      if iterationCounter == n {
        iterationCounter := 0;
        weightCounter := weightCounter + 1;
        baseVector := Prefix(n, weightCounter);
      }
      var syndromeVector := baseVector[iterationCounter := 1];
      assert syndromeVector == Candidate(n, i);
      var syndrome := VecMatMod2(syndromeVector, h, cols);
      if syndrome !in syndromeTable {
        syndromeTable := syndromeTable[syndrome := syndromeVector];
      }
      iterationCounter := iterationCounter + 1;
    }
  }

  // ---------------------------------------------------------------------
  // numpy slice assignment

  /** `m[:, col:col+w] = block`. */
  function PasteColumns(m: seq<seq<int>>, col: nat, block: seq<seq<int>>): (p: seq<seq<int>>)
    requires |block| == |m|
    requires forall r :: 0 <= r < |m| ==> col + |block[r]| <= |m[r]|
    ensures |p| == |m|
    ensures forall r :: 0 <= r < |m| ==>
              |p[r]| == |m[r]| && p[r][col..col + |block[r]|] == block[r]
              && p[r][..col] == m[r][..col] && p[r][col + |block[r]|..] == m[r][col + |block[r]|..]
  {
    seq(|m|, r requires 0 <= r < |m| => m[r][..col] + block[r] + m[r][col + |block[r]|..])
  }

  /** `m[row:row+|block|, :] = block`. */
  function PasteRows(m: seq<seq<int>>, row: nat, block: seq<seq<int>>): (p: seq<seq<int>>)
    requires row + |block| <= |m|
    ensures |p| == |m| && p[row..row + |block|] == block
    ensures p[..row] == m[..row] && p[row + |block|..] == m[row + |block|..]
  {
    m[..row] + block + m[row + |block|..]
  }

  /** `m[:, from:]`. */
  function RightColumns(m: seq<seq<int>>, from: nat): (b: seq<seq<int>>)
    requires forall r :: 0 <= r < |m| ==> from <= |m[r]|
    ensures |b| == |m|
    ensures forall r :: 0 <= r < |m| ==> |b[r]| == |m[r]| - from
  {
    seq(|m|, r requires 0 <= r < |m| => m[r][from..])
  }
}
