/**
  The revision counter of a replica: a block of 4096 bytes that holds the number
  in decimal, padded with NUL bytes, and a copy of the number in memory.
*/
module RevisionCounter {

  const BlockSize: nat := 4096
  const MinInt64: int := -0x8000_0000_0000_0000
  const MaxInt64: int := 0x7fff_ffff_ffff_ffff

  const Nul: char := 0 as char

  type Int64 = n: int | MinInt64 <= n <= MaxInt64

  /** Addition of one, as a 64-bit machine does it. */
  function Increment(n: Int64): (m: Int64)
    ensures SameModulo64(m, n + 1)
  {
    assert Apart(MinInt64, MaxInt64 + 1, -1) && Apart(n + 1, n + 1, 0);
    if n == MaxInt64 then MinInt64 else n + 1
  }

  /** Equal up to a multiple of 2^64. */
  ghost predicate SameModulo64(m: int, n: int) {
    exists k: int :: Apart(m, n, k)
  }

  predicate Apart(m: int, n: int, k: int) {
    m == n + k * 0x1_0000_0000_0000_0000
  }

  datatype Result<+T> = Ok(value: T) | Error

  // ---- Decimal numbers ----

  function Digit(d: nat): char
    requires d < 10
  {
    '0' + d as char
  }

  function Digits(n: nat): (r: string)
    ensures |r| > 0
  {
    if n < 10 then [Digit(n)] else Digits(n / 10) + [Digit(n % 10)]
  }

  function Format(n: int): (r: string)
    ensures |r| > 0
  {
    if n < 0 then "-" + Digits(-n) else Digits(n)
  }

  predicate IsDigit(c: char) {
    '0' <= c <= '9'
  }

  function DigitValue(c: char): nat
    requires IsDigit(c)
  {
    (c - '0') as nat
  }

  function Value(s: string): nat
    requires AllDigits(s)
  {
    if s == [] then 0 else 10 * Value(s[..|s| - 1]) + DigitValue(s[|s| - 1])
  }

  /** An optional sign and at least one digit, within 64 bits. */
  function Parse(s: string): Result<Int64> {
    if s != [] && s[0] == '-' then ParseDigits(s[1..], -1)
    else if s != [] && s[0] == '+' then ParseDigits(s[1..], 1)
    else ParseDigits(s, 1)
  }

  predicate AllDigits(s: string) {
    forall k :: 0 <= k < |s| ==> IsDigit(s[k])
  }

  function ParseDigits(s: string, sign: int): Result<Int64> {
    if s == [] || !AllDigits(s) then Error
    else if MinInt64 <= sign * Value(s) <= MaxInt64 then Ok(sign * Value(s))
    else Error
  }

  lemma {:induction false} DigitsRoundTrip(n: nat)
    ensures AllDigits(Digits(n)) && Value(Digits(n)) == n
  {
    if n < 10 {
      assert Digits(n)[..0] == [];
    } else {
      DigitsRoundTrip(n / 10);
      assert Digits(n)[..|Digits(n)| - 1] == Digits(n / 10);
    }
  }

  /** The first digit of a number has the greatest weight ... */
  lemma {:induction false} LeadingDigit(c: char, s: string)
    requires IsDigit(c) && AllDigits(s)
    ensures AllDigits([c] + s) && Value([c] + s) == DigitValue(c) * Pow10(|s|) + Value(s)
  {
    var all := [c] + s;
    if s == [] {
      assert all[..0] == [];
    } else {
      var init := s[..|s| - 1];
      LeadingDigit(c, init);
      assert all[..|all| - 1] == [c] + init;
      assert 10 * (DigitValue(c) * Pow10(|init|)) == DigitValue(c) * (10 * Pow10(|init|));
    }
  }

  /** ... and is not a zero that could be left out. */
  lemma {:induction false} NoLeadingZero(n: nat)
    requires n > 0
    ensures Digits(n)[0] != '0'
  {
    if n >= 10 {
      NoLeadingZero(n / 10);
    }
  }

  lemma FormatRoundTrip(n: Int64)
    ensures Parse(Format(n)) == Ok(n)
  {
    if n < 0 {
      var a: int := n;
      DigitsRoundTrip(-a);
      assert Format(n)[1..] == Digits(-a);
    } else {
      DigitsRoundTrip(n);
      assert IsDigit(Format(n)[0]);
    }
  }

  /** What parses: one sign or none, then digits, at least one, of a number within 64 bits. */
  lemma ParseIff(s: string)
    ensures var negative := s != [] && s[0] == '-';
            var digits := if negative || (s != [] && s[0] == '+') then s[1..] else s;
            if digits == [] || !AllDigits(digits) then Parse(s) == Error
            else
              var value: int := Value(digits);
              var n := if negative then -value else value;
              Parse(s) == if MinInt64 <= n <= MaxInt64 then Ok(n) else Error
  {
  }

  // ---- The block ----

  function TrimLeft(s: string): string {
    if s != [] && s[0] == Nul then TrimLeft(s[1..]) else s
  }

  function TrimRight(s: string): string {
    if s != [] && s[|s| - 1] == Nul then TrimRight(s[..|s| - 1]) else s
  }

  /** NUL characters at both ends are ignored. */
  function Trim(s: string): string {
    TrimRight(TrimLeft(s))
  }

  function Nuls(n: nat): (r: string)
    ensures |r| == n && forall k :: 0 <= k < n ==> r[k] == Nul
  {
    seq(n, _ => Nul)
  }

  /** The text copied into a block of NULs; what does not fit is lost. */
  function Block(s: string): (r: string)
    ensures |r| == BlockSize
  {
    if |s| >= BlockSize then s[..BlockSize] else s + Nuls(BlockSize - |s|)
  }

  lemma {:induction false} TrimPadding(s: string, n: nat)
    requires s != [] && s[0] != Nul && s[|s| - 1] != Nul
    ensures TrimRight(s + Nuls(n)) == s
  {
    if n == 0 {
      assert s + Nuls(n) == s;
    } else {
      TrimPadding(s, n - 1);
      var p := s + Nuls(n);
      assert p[|p| - 1] == Nul;
      assert p[..|p| - 1] == s + Nuls(n - 1);
    }
  }

  /** NULs before and behind a text are all that trimming takes away. */
  lemma {:induction false} TrimTakesNuls(n: nat, s: string, m: nat)
    requires s != [] && s[0] != Nul && s[|s| - 1] != Nul
    ensures Trim(Nuls(n) + s + Nuls(m)) == s
  {
    var p := Nuls(n) + s + Nuls(m);
    if n == 0 {
      assert p == s + Nuls(m) && TrimLeft(p) == p;
      TrimPadding(s, m);
    } else {
      TrimTakesNuls(n - 1, s, m);
      assert p[0] == Nul && p[1..] == Nuls(n - 1) + s + Nuls(m);
    }
  }

  lemma {:induction false} DigitsAreShort(n: nat, k: nat)
    requires k > 0 && n < Pow10(k)
    ensures |Digits(n)| <= k
  {
    if n >= 10 {
      assert Pow10(1) == 10;
      DigitsAreShort(n / 10, k - 1);
    }
  }

  function Pow10(k: nat): nat {
    if k == 0 then 1 else 10 * Pow10(k - 1)
  }

  lemma FormatFits(n: Int64)
    ensures |Format(n)| <= 20
    ensures forall k :: 0 <= k < |Format(n)| ==> Format(n)[k] != Nul
  {
    assert Pow10(4) == 10000;
    assert Pow10(8) == 10000 * 10000;
    assert Pow10(12) == 10000 * 10000 * 10000;
    assert Pow10(16) == 10000 * 10000 * 10000 * 10000;
    assert Pow10(19) == 10000 * 10000 * 10000 * 10000 * 1000;
    var i: int := n;
    var a := if i < 0 then -i else i;
    DigitsAreShort(a, 19);
    DigitsRoundTrip(a);
  }

  /**
    What reading the file gives: the first block of it, with NULs where the file is
    shorter.
  */
  function ReadBack(file: string): Result<Int64> {
    Parse(Trim(Block(file)))
  }

  /** Writing replaces the first block and leaves what lies behind it. */
  function Written(file: string, n: Int64): string {
    Block(Format(n)) + if |file| > BlockSize then file[BlockSize..] else []
  }

  /** What lies behind the first block is left, and a shorter file grows to one block. */
  lemma WritingKeepsTail(file: string, n: Int64)
    ensures |Written(file, n)| == (if |file| > BlockSize then |file| else BlockSize)
    ensures forall k :: BlockSize <= k < |file| ==> Written(file, n)[k] == file[k]
  {
  }

  /** The counter reads back as itself, for every 64-bit number and over any old file. */
  lemma CounterRoundTrip(file: string, n: Int64)
    ensures ReadBack(Written(file, n)) == Ok(n)
  {
    var f := Format(n);
    var block := Block(f);
    assert Block(Written(file, n)) == block;
    FormatFits(n);
    TrimPadding(f, BlockSize - |f|);
    assert TrimLeft(block) == block;
    FormatRoundTrip(n);
  }

  /** The counter of one replica. */
  class Counter {
    var cache: Int64
    /** Whether the counter file exists, and what it holds. */
    var present: bool
    var file: string

    /** The copy in memory is what a restart would read. */
    predicate Synced()
      reads this
    {
      present && ReadBack(file) == Ok(cache)
    }

    /** A write that fails may leave anything in the file. */
    method WriteFile(n: Int64, fails: bool, wreck: string) returns (ok: bool)
      modifies this`file
      ensures ok == !fails
      ensures ok ==> ReadBack(file) == Ok(n) && file == Written(old(file), n)
    {
      if fails {
        file := wreck;
        return false;
      }
      CounterRoundTrip(file, n);
      file := Written(file, n);
      return true;
    }

    /** At start-up: a missing file is created holding 1, then the file is read. */
    method Init(openFails: bool, writeFails: bool, readFails: bool, wreck: string) returns (ok: bool)
      modifies this
      ensures ok ==> Synced() && !openFails && !readFails
      ensures ok && !old(present) ==> cache == 1
      ensures old(present) ==> present && file == old(file)
      ensures old(present) && ReadBack(old(file)).Ok? && !openFails && !readFails ==> ok
      ensures old(Synced()) && !openFails && !readFails ==> ok && cache == old(cache)
      ensures !ok ==> cache == old(cache)
    {
      if openFails {
        return false;
      }
      if !present {
        present, file := true, [];
        ok := WriteFile(1, writeFails, wreck);
        if !ok {
          return false;
        }
      }
      var r := ReadBack(file);
      if readFails || r.Error? {
        return false;
      }
      cache := r.value;
      return true;
    }

    /** The counter as the file has it; -1 when the file cannot be read. */
    method Get(readFails: bool) returns (n: Int64)
      requires present
      modifies this`cache
      ensures readFails || ReadBack(file).Error? ==> n == -1 && cache == old(cache)
      ensures !readFails && ReadBack(file).Ok? ==> n == cache && Synced()
      ensures old(Synced()) ==> Synced() && cache == old(cache)
    {
      var r := ReadBack(file);
      if readFails || r.Error? {
        return -1;
      }
      cache := r.value;
      return cache;
    }

    /** Only a replica in RW mode takes a new counter. */
    method Set(n: Int64, writable: bool, writeFails: bool, wreck: string) returns (ok: bool)
      requires present
      modifies this`cache, this`file
      ensures ok <==> writable && !writeFails
      ensures ok ==> Synced() && cache == n
      ensures !ok ==> cache == old(cache)
      ensures !writable ==> file == old(file)
    {
      if !writable {
        return false;
      }
      ok := WriteFile(n, writeFails, wreck);
      if ok {
        cache := n;
      }
    }

    /** Counts one write. */
    method Increase(writeFails: bool, wreck: string) returns (ok: bool)
      requires present
      modifies this`cache, this`file
      ensures ok == !writeFails
      ensures ok ==> Synced() && SameModulo64(cache, old(cache) + 1)
      ensures ok && old(cache) < MaxInt64 ==> cache == old(cache) + 1
      ensures !ok ==> cache == old(cache)
    {
      var n := Increment(cache);
      ok := WriteFile(n, writeFails, wreck);
      if ok {
        cache := n;
      }
    }
  }

  // ---- Whole runs ----

  /** What can happen to a counter; the flags say what fails, and the text what a failed write leaves behind. */
  datatype Event =
    | Count(writeFails: bool, wreck: string)
    | Ask(readFails: bool)
    | Restart(openFails: bool, readFails: bool)

  /** A count of successful writes: the number, whether the last write failed, and whether the replica is up. */
  datatype Tally = Tally(number: int, torn: bool, up: bool)

  function Counted(t: Tally, e: Event): Tally {
    match e
    case Count(writeFails, _) =>
      if !t.up then t else if writeFails then t.(torn := true) else t.(number := t.number + 1, torn := false)
    case Ask(_) => t
    case Restart(openFails, readFails) => t.(up := !openFails && !readFails)
  }

  function Tallied(t: Tally, events: seq<Event>): Tally {
    if events == [] then t else Counted(Tallied(t, events[..|events| - 1]), events[|events| - 1])
  }

  /** The file agrees with the tally, and so does the copy in memory while the replica is up. */
  ghost predicate Agrees(c: Counter, t: Tally)
    reads c
  {
    && c.present
    && (t.up ==> SameModulo64(c.cache, t.number))
    && (!t.torn ==> ReadBack(c.file).Ok? && SameModulo64(ReadBack(c.file).value, t.number))
  }

  method CountOne(c: Counter, writeFails: bool, wreck: string, ghost t: Tally)
    requires Agrees(c, t) && t.up
    modifies c
    ensures Agrees(c, Counted(t, Count(writeFails, wreck)))
  {
    ghost var was := c.cache;
    var ok := c.Increase(writeFails, wreck);
    if ok {
      CountedOn(was, t.number, c.cache);
    }
  }

  /** One event.  A restart forgets the copy in memory. */
  method Perform(c: Counter, e: Event, up: bool, ghost t: Tally) returns (up': bool)
    requires Agrees(c, t) && up == t.up && (t.torn ==> e.Count?)
    modifies c
    ensures Agrees(c, Counted(t, e)) && up' == Counted(t, e).up
  {
    up' := up;
    match e
    case Count(writeFails, wreck) =>
      if up {
        CountOne(c, writeFails, wreck, t);
      }
    case Ask(readFails) =>
      if up {
        var _ := c.Get(readFails);
      }
    case Restart(openFails, readFails) =>
      c.cache := 0;
      up' := c.Init(openFails, false, readFails, []);
  }

  /**
    A counter over any run of counted writes, queries and restarts, failing or not,
    that does not read the file back while the last write to it has failed: what a
    restart would read is the number it started with plus the writes that succeeded.
  */
  method CountAll(c: Counter, events: seq<Event>) returns (done: nat)
    requires c.Synced()
    modifies c
    ensures done <= |events|
    ensures var t := Tallied(Tally(old(c.cache), false, true), events[..done]);
            && (done < |events| ==> t.torn && !events[done].Count?)
            && Agrees(c, t)
            && (!t.torn && t.number <= MaxInt64 ==> ReadBack(c.file) == Ok(t.number))
  {
    ghost var start := Tally(c.cache, false, true);
    assert Apart(c.cache, c.cache, 0);
    var up, torn := true, false;
    done := 0;
    while done < |events| && (torn ==> events[done].Count?)
      invariant done <= |events|
      invariant var t := Tallied(start, events[..done]); Agrees(c, t) && up == t.up && torn == t.torn && t.number >= start.number
    {
      var e := events[done];
      assert events[..done + 1][..done] == events[..done];
      torn := if e.Count? && up then e.writeFails else torn;
      up := Perform(c, e, up, Tallied(start, events[..done]));
      done := done + 1;
    }
    ghost var t := Tallied(start, events[..done]);
    if !t.torn && t.number <= MaxInt64 {
      SameInRange(ReadBack(c.file).value, t.number);
    }
  }

  lemma CountedOn(cache: Int64, number: int, next: Int64)
    requires SameModulo64(cache, number) && SameModulo64(next, cache + 1)
    ensures SameModulo64(next, number + 1)
  {
    var j :| Apart(cache, number, j);
    var k :| Apart(next, cache + 1, k);
    assert Apart(next, number + 1, j + k);
  }

  lemma SameInRange(m: Int64, n: Int64)
    requires SameModulo64(m, n)
    ensures m == n
  {
    var k :| Apart(m, n, k);
  }
}
