/** The pure helpers of utils.py: credential validation, list chunking and dictionary lookup. */
module Utils {

  import opened Wrappers
  import opened Decimal

  /** any(P(c) for c in s), evaluated left to right as the generator does. */
  function Any(s: string, P: char -> bool): bool
  {
    if s == [] then false else P(s[0]) || Any(s[1..], P)
  }

  lemma {:induction false} AnyIff(s: string, P: char -> bool)
    ensures Any(s, P) <==> exists i :: 0 <= i < |s| && P(s[i])
  {
    if s != [] {
      AnyIff(s[1..], P);
      assert forall i :: 1 <= i < |s| ==> s[i] == s[1..][i - 1];
      if Any(s[1..], P) {
        var j :| 0 <= j < |s[1..]| && P(s[1..][j]);
        assert P(s[j + 1]);
      }
    }
  }

  /** str.isalnum(): true of a non-empty string whose characters are all letters or digits. */
  function StrIsAlnum(s: string): bool
  {
    |s| > 0 && !Any(s, c => !IsAlnum(c))
  }

  function IsValidUsername(username: string): bool
  {
    StrIsAlnum(username) && 3 <= |username| <= 20
  }

  /** A user name is accepted exactly when it has 3 to 20 characters, all alphanumeric. */
  lemma UsernameIff(username: string)
    ensures IsValidUsername(username) <==>
              (3 <= |username| <= 20 && forall i :: 0 <= i < |username| ==> IsAlnum(username[i]))
  {
    AnyIff(username, c => !IsAlnum(c));
  }

  function IsValidPassword(password: string): (ok: bool)
    ensures |password| < 6 ==> !ok
  {
    if |password| < 6 then false
    else
      var hasLetter := Any(password, IsAlpha);
      var hasNumber := Any(password, IsDigit);
      hasLetter && hasNumber
  }

  /** A password is accepted exactly when it has at least 6 characters, a letter and a digit. */
  lemma PasswordIff(password: string)
    ensures IsValidPassword(password) <==>
              (|password| >= 6
               && (exists i :: 0 <= i < |password| && IsAlpha(password[i]))
               && (exists j :: 0 <= j < |password| && IsDigit(password[j])))
  {
    AnyIff(password, IsAlpha);
    AnyIff(password, IsDigit);
  }

  function Min(a: int, b: int): int { if a <= b then a else b }

  /** Number of start indices range(0, len, n) yields for n > 0, i.e. ceil(len / n). */
  function NumChunks(len: nat, n: nat): nat
    requires n > 0
  {
    (len + n - 1) / n
  }

  /** [lst[i:i+n] for i in range(0, len(lst), n)] for a positive step n. */
  function Chunks<T>(lst: seq<T>, n: nat): (r: seq<seq<T>>)
    requires n > 0
    ensures |r| == NumChunks(|lst|, n)
  {
    seq(NumChunks(|lst|, n), k requires 0 <= k < NumChunks(|lst|, n) =>
      ChunkStartInRange(|lst|, n, k);
      lst[k * n .. Min(k * n + n, |lst|)])
  }

  /** chunk_list: a zero step makes range() raise; a negative step yields no chunks. */
  function ChunkList<T>(lst: seq<T>, n: int): (r: Result<seq<seq<T>>>)
    ensures r.Failure? <==> n == 0
    ensures n < 0 ==> r == Success([])
  {
    if n == 0 then Failure(RangeStepZero)
    else if n < 0 then Success([])
    else Success(Chunks(lst, n))
  }

  lemma MulMono(a: int, b: int, n: nat)
    requires a <= b
    ensures a * n <= b * n
  {
  }

  lemma ChunkStartInRange(len: nat, n: nat, k: nat)
    requires n > 0 && k < NumChunks(len, n)
    ensures k * n < len
  {
    var q := NumChunks(len, n);
    assert q * n <= len + n - 1;
    MulMono(k, q - 1, n);
  }

  lemma DivUnique(a: int, n: nat, q: int, r: int)
    requires n > 0 && a == q * n + r && 0 <= r < n
    ensures a / n == q
  {
    var q', r' := a / n, a % n;
    assert a == q' * n + r';
    assert (q - q') * n == r' - r;
    if q - q' >= 1 {
      MulMono(1, q - q', n);
    } else if q' - q >= 1 {
      MulMono(1, q' - q, n);
    }
  }

  lemma DivStep(x: nat, n: nat)
    requires n > 0
    ensures (x + n) / n == x / n + 1
  {
    var q, r := x / n, x % n;
    assert x + n == (q + 1) * n + r;
    DivUnique(x + n, n, q + 1, r);
  }

  function Flatten<T>(chunks: seq<seq<T>>): seq<T>
  {
    if chunks == [] then [] else chunks[0] + Flatten(chunks[1..])
  }

  /** The k-th chunk starts at k * n and stops n elements later or at the end of the list. */
  lemma ChunkAt<T>(lst: seq<T>, n: nat, k: nat)
    requires n > 0 && k < NumChunks(|lst|, n)
    ensures k * n < |lst|
    ensures Chunks(lst, n)[k] == lst[k * n .. Min(k * n + n, |lst|)]
  {
    ChunkStartInRange(|lst|, n, k);
  }

  /** A list longer than n has one chunk more than the list without its first n elements. */
  lemma ChunkCountStep(len: nat, n: nat)
    requires 0 < n < len
    ensures NumChunks(len, n) == NumChunks(len - n, n) + 1
  {
    assert len + n - 1 == (len - n + n - 1) + n;
    DivStep(len - n + n - 1, n);
  }

  /** Past the first chunk, the k-th chunk of lst is the (k-1)-th chunk of lst[n..]. */
  lemma ChunkShift<T>(lst: seq<T>, n: nat, k: nat)
    requires 0 < n < |lst| && 0 < k < NumChunks(|lst|, n)
    ensures k - 1 < NumChunks(|lst| - n, n)
    ensures Chunks(lst, n)[k] == Chunks(lst[n..], n)[k - 1]
  {
    ChunkCountStep(|lst|, n);
    ChunkAt(lst, n, k);
    ChunkAt(lst[n..], n, k - 1);
    SliceShift(lst, n, (k - 1) * n, Min((k - 1) * n + n, |lst| - n));
  }

  /** A slice of lst[n..] is the slice of lst shifted by n. */
  lemma SliceShift<T>(lst: seq<T>, n: nat, s: nat, e: nat)
    requires n <= |lst| && s <= e <= |lst| - n
    ensures lst[n..][s..e] == lst[s + n .. e + n]
  {
  }

  /** Chunking peels off a first chunk of min(n, |lst|) elements and chunks the rest. */
  lemma ChunksUnfold<T>(lst: seq<T>, n: nat)
    requires n > 0 && |lst| > 0
    ensures Chunks(lst, n) == [lst[..Min(n, |lst|)]] + Chunks(lst[Min(n, |lst|)..], n)
  {
    var m := Min(n, |lst|);
    var a := Chunks(lst, n);
    var b := [lst[..m]] + Chunks(lst[m..], n);
    if |lst| <= n {
      DivUnique(|lst| + n - 1, n, 1, |lst| - 1);
      DivUnique(n - 1, n, 0, n - 1);
      assert |a| == 1 && Chunks(lst[m..], n) == [];
      ChunkAt(lst, n, 0);
    } else {
      ChunkCountStep(|lst|, n);
      assert |a| == |b|;
      forall k | 0 <= k < |a| ensures a[k] == b[k] {
        if k == 0 {
          ChunkAt(lst, n, 0);
        } else {
          ChunkShift(lst, n, k);
        }
      }
    }
  }

  /** For a positive step, concatenating the chunks gives back the list. */
  lemma {:induction false} ChunksFlatten<T>(lst: seq<T>, n: nat)
    requires n > 0
    ensures Flatten(Chunks(lst, n)) == lst
    decreases |lst|
  {
    if |lst| == 0 {
      assert Chunks(lst, n) == [];
    } else {
      var m := Min(n, |lst|);
      ChunksUnfold(lst, n);
      ChunksFlatten(lst[m..], n);
      assert lst[..m] + lst[m..] == lst;
    }
  }

  /** For a positive step every chunk is non-empty, every chunk but the last holds exactly
      n elements, and the last holds at most n. */
  lemma ChunkSizes<T>(lst: seq<T>, n: nat)
    requires n > 0
    ensures forall k :: 0 <= k < |Chunks(lst, n)| ==> 0 < |Chunks(lst, n)[k]| <= n
    ensures forall k :: 0 <= k < |Chunks(lst, n)| - 1 ==> |Chunks(lst, n)[k]| == n
  {
    var c := Chunks(lst, n);
    forall k | 0 <= k < |c| ensures 0 < |c[k]| <= n && (k < |c| - 1 ==> |c[k]| == n) {
      ChunkAt(lst, n, k);
      var start := k * n;
      var stop := Min(start + n, |lst|);
      assert |c[k]| == stop - start;
      if k < |c| - 1 {
        ChunkStartInRange(|lst|, n, k + 1);
        assert (k + 1) * n == start + n;
        assert stop == start + n;
      }
    }
  }

  /** safe_get: the stored value when the key is present, else the default. */
  function SafeGet<K, V>(d: map<K, V>, key: K, default: V): (r: V)
    ensures key in d ==> r == d[key]
    ensures key !in d ==> r == default
  {
    if key in d then d[key] else default
  }
}
