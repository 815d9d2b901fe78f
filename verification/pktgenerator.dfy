/** The generator itself, with its static variables, its output buffer and its waiting. */
module PacketGenerator {
  import opened Base36
  import opened PacketNames
  import opened PacketProtocol

  /** The system clock. It is never turned back, and a sleep lets it move on. */
  class Clock {
    var now: nat

    method Sleep()
      modifies this
      ensures now > old(now)
    {
      var passed: nat :| passed > 0;
      now := now + passed;
    }
  }

  const PATH_DELIM: char := '/'

  /** The directory as it starts a path: with a delimiter at its end, unless it is empty. */
  function Prefix(dir: string): string {
    if dir != [] && dir[|dir| - 1] != '\\' && dir[|dir| - 1] != '/' && dir[|dir| - 1] != PATH_DELIM
    then dir + [PATH_DELIM]
    else dir
  }

  function Path(dir: string, stem: string, ext: string): string {
    Prefix(dir) + stem + "." + ext
  }

  /** A path is the directory, a slash if that is needed to end it, the stem, a dot and the extension. */
  lemma PathExactly(dir: string, stem: string, ext: string)
    ensures var p := Path(dir, stem, ext);
            var n := |p| - |stem| - 1 - |ext|;
            && |dir| <= n <= |dir| + 1 && p[..|dir|] == dir && p[n..] == stem + "." + ext
            && (n == |dir| <==> dir == "" || dir[|dir| - 1] in {'/', '\\'})
            && (n == |dir| + 1 ==> p[|dir|] == '/')
  {
    var p := Path(dir, stem, ext);
    assert p == Prefix(dir) + (stem + "." + ext);
    assert p[|Prefix(dir)|..] == stem + "." + ext;
  }

  lemma PathParts(dir: string, digits: string, c: char, ext: string)
    ensures Prefix(dir) + digits + [c] + "." + ext == Path(dir, digits + [c], ext)
  {
    assert Prefix(dir) + digits + [c] == Prefix(dir) + (digits + [c]);
  }

  /** The sum that the carry loop prints is the number a name stands for. */
  lemma SumIsNumeral(x: nat, y: nat, total: nat, counter: nat)
    requires counter < 36 && total == x + y
    ensures Print(AddDigits(ToDigits(x, WIDTH), ToDigits(y, WIDTH), 0)) + [DigitChar(counter)]
            == Numeral(total, counter)
  {
    hide ToDigits, AddDigits, Print;
    AddDigitsAdds(x, y, 0, WIDTH);
  }

  /** The buffer holds exactly this string and its terminator, within its bounds. */
  predicate HoldsString(buffer: array<char>, s: string)
    reads buffer
  {
    |s| < buffer.Length && buffer[..|s|] == s && buffer[|s|] == '\0'
  }

  /** A buffer holds one string at most. */
  lemma HoldsOne(buffer: array<char>, s: string, t: string)
    requires HoldsString(buffer, s) && HoldsString(buffer, t) && '\0' !in s && '\0' !in t
    ensures s == t
  {
    assert |s| == |t|;
  }

  class Generator {
    var counter: nat
    var refCounter: nat
    var refTime: nat
    var refTime36: array<int>
    var lastRefTimeUsed: nat
    var mayRunAhead: bool

    ghost predicate Valid()
      reads this, refTime36
    {
      && refTime36.Length == 7
      && if refTime == 0 then State() == FRESH
         else counter < 36 && refCounter < 36 && refTime36[..] == ToDigits(refTime, WIDTH)
    }

    ghost function State(): Process
      reads this
    {
      Process(counter, refCounter, refTime, lastRefTimeUsed, mayRunAhead)
    }

    constructor ()
      ensures Valid() && State() == FRESH && fresh(refTime36)
    {
      counter, refCounter := NO_COUNTER, NO_COUNTER;
      refTime, lastRefTimeUsed, mayRunAhead := 0, 0, false;
      refTime36 := new int[7];
    }

    /** The exit handler: sleeps until the clock has caught up with the last base time. */
    method WaitAtExit(clock: Clock)
      modifies clock
      ensures lastRefTimeUsed <= clock.now
      ensures clock.now == old(clock.now) || old(clock.now) < lastRefTimeUsed
      ensures MayExit(State(), clock.now)
    {
      while clock.now < lastRefTimeUsed
        invariant clock.now == old(clock.now) || old(clock.now) < lastRefTimeUsed
        decreases lastRefTimeUsed - clock.now
        modifies clock
      {
        clock.Sleep();
      }
    }

    method MakeUniqueDosFileName(dir: string, ext: string, aka: Aka, clock: Clock, atexitWorks: bool)
      returns (fileName: array<char>)
      requires Valid()
      modifies this, refTime36, clock
      ensures Valid() && refTime36 == old(refTime36) && fresh(fileName)
      ensures var (p, e) := Called(StartCounter(aka), old(State()), old(clock.now), atexitWorks);
              && State() == p
              && e.counter < 36
              && HoldsString(fileName, Path(dir, Stem(Offset(aka), e), ext))
              && old(clock.now) <= clock.now
              && if CallWaits(StartCounter(aka), old(State()), old(clock.now), atexitWorks)
                 then e.base <= clock.now else clock.now == old(clock.now)
    {
      hide StartCounter, Offset, Stem, Path, ToDigits, CallWaits, Initialised, Rebased;
      ChooseBase(StartCounter(aka), clock, atexitWorks);
      fileName := Emit(dir, ext, Offset(aka));
    }

    /** Prints the current base time and counter, and moves the counter on. */
    method Emit(dir: string, ext: string, offset: nat) returns (fileName: array<char>)
      requires Valid() && refTime > 0
      modifies this`counter
      ensures fresh(fileName)
      ensures HoldsString(fileName, Path(dir, Stem(offset, Emission(refTime, old(counter))), ext))
      ensures counter == (old(counter) + 1) % 36
    {
      hide ToDigits, AddDigits, Print, Numeral;
      var offset36 := OffsetDigits(offset);
      SumIsNumeral(refTime, 36 * offset, refTime + 36 * offset, counter);
      ghost var digits := Print(AddDigits(refTime36[..], offset36[..], 0));
      fileName := AddAndPrint(dir, ext, offset36, digits);
      counter := (counter + 1) % 36;
    }

    /** Initialises the static variables on the first call, and moves on to the next base time
        when the counters of this one are used up. */
    method ChooseBase(start: nat, clock: Clock, atexitWorks: bool)
      requires Valid() && start < 36
      modifies this, refTime36, clock
      ensures State() == Rebased(start, Initialised(old(State()), old(clock.now), atexitWorks))
      ensures Valid() && refTime > 0 && refTime36 == old(refTime36)
      ensures old(clock.now) <= clock.now
      ensures if CallWaits(start, old(State()), old(clock.now), atexitWorks)
              then refTime <= clock.now else clock.now == old(clock.now)
    {
      hide ToDigits;
      if refTime == 0 {
        refTime := clock.now;
        mayRunAhead := atexitWorks;
        lastRefTimeUsed := refTime;
      }
      if counter == start || start != refCounter {
        counter, refCounter := start, start;
        refTime := refTime + 1;
        lastRefTimeUsed := refTime;
        if !mayRunAhead {
          WaitForBase(clock);
        }
        CutRefTime();
      }
    }

    method WaitForBase(clock: Clock)
      modifies clock
      ensures old(clock.now) <= clock.now && refTime <= clock.now
    {
      while clock.now < refTime
        invariant old(clock.now) <= clock.now
        decreases refTime - clock.now
        modifies clock
      {
        clock.Sleep();
      }
    }

    /** The base time, cut into digits that are kept between calls. */
    method CutRefTime()
      requires refTime36.Length == 7
      modifies refTime36
      ensures refTime36[..] == ToDigits(refTime, WIDTH)
    {
      hide ToDigits;
      var t := refTime;
      for i := 0 to 7
        invariant ToDigits(refTime, WIDTH) == refTime36[..i] + ToDigits(t, WIDTH - i)
      {
        DigitsNext(t, WIDTH - i);
        refTime36[i] := t % 36;
        t := t / 36;
      }
      DigitsNone(t);
    }

    /** Allocates the buffer as large as the program does, and writes directory, seven digits,
        counter and extension into it. */
    method AddAndPrint(dir: string, ext: string, offset36: array<int>, ghost digits: string)
      returns (fileName: array<char>)
      requires refTime36.Length == 7 && offset36.Length == 7 && counter < 36
      requires AreDigits(refTime36[..]) && AreDigits(offset36[..])
      requires digits == Print(AddDigits(refTime36[..], offset36[..], 0))
      ensures fresh(fileName)
      ensures HoldsString(fileName, Path(dir, digits + [DigitChar(counter)], ext))
    {
      hide AddDigits, Print, DigitChar;
      var pathLen;
      fileName, pathLen := NewBuffer(dir, |ext|);
      PrintSum(refTime36, offset36, fileName, pathLen);
      DigitFromTable(counter);
      PrintTail(fileName, pathLen + 7, DIGITS[counter], ext);
      PathParts(dir, digits, DigitChar(counter), ext);
    }
  }

  /** The seven digits of the sum, most significant first, behind what the buffer holds. */
  method PrintSum(a: array<int>, b: array<int>, out: array<char>, at: nat)
    requires a.Length == b.Length == 7 && AreDigits(a[..]) && AreDigits(b[..])
    requires at + 7 <= out.Length
    modifies out
    ensures out[..at + 7] == old(out[..at]) + Print(AddDigits(a[..], b[..], 0))
  {
    ghost var sum := AddDigits(a[..], b[..], 0);
    hide AddDigits, Print;
    CarryLoop(a, b, out, at, sum);
    PrintedBackwards(out[at..at + 7], sum);
    assert out[..at + 7] == out[..at] + out[at..at + 7];
  }

  /** The carry loop: the digits come out least significant first and are stored backwards. */
  method CarryLoop(a: array<int>, b: array<int>, out: array<char>, at: nat, ghost sum: seq<int>)
    requires a.Length == b.Length == 7 && AreDigits(a[..]) && AreDigits(b[..])
    requires sum == AddDigits(a[..], b[..], 0)
    requires at + 7 <= out.Length
    modifies out
    ensures out[..at] == old(out[..at])
    ensures forall k {:trigger sum[k]} :: 0 <= k < 7 ==> out[at..at + 7][6 - k] == DigitChar(sum[k])
  {
    hide AddDigits, DigitChar;
    var digit: nat := 0;
    for i := 0 to 7
      invariant out[..at] == old(out[..at])
      invariant sum[i..] == AddDigits(a[i..], b[i..], digit)
      invariant forall k {:trigger sum[k]} :: 0 <= k < i ==> out[at + (6 - k)] == DigitChar(sum[k])
    {
      var c;
      c, digit := AddPlace(a, b, i, digit, sum);
      out[at + (6 - i)] := c;
    }
  }

  /** One place of the sum: its character, and the carry it leaves for the rest. */
  method AddPlace(a: array<int>, b: array<int>, i: nat, carry: nat, ghost sum: seq<int>)
    returns (c: char, carry': nat)
    requires i < a.Length == b.Length == |sum| && AreDigits(a[..]) && AreDigits(b[..]) && AreDigits(sum)
    requires sum[i..] == AddDigits(a[i..], b[i..], carry)
    ensures c == DigitChar(sum[i])
    ensures sum[i + 1..] == AddDigits(a[i + 1..], b[i + 1..], carry')
  {
    var digit := carry + a[i] + b[i];
    PlaceOfSum(a[..], b[..], carry, sum, i);
    DigitFromTable(digit % 36);
    c := DIGITS[digit % 36];
    carry' := digit / 36;
  }

  lemma PrintedBackwards(out: string, ds: seq<int>)
    requires |out| == |ds| && AreDigits(ds)
    requires forall k {:trigger ds[k]} :: 0 <= k < |ds| ==> out[|ds| - 1 - k] == DigitChar(ds[k])
    ensures out == Print(ds)
  {
    hide Print, DigitChar;
    forall k | 0 <= k < |out| ensures out[k] == Print(ds)[k] {
      var i := |ds| - 1 - k;
      assert out[|ds| - 1 - i] == DigitChar(ds[i]);
    }
  }

  /** One place of the sum, and what its carry leaves for the rest. */
  lemma PlaceOfSum(a: seq<int>, b: seq<int>, carry: nat, sum: seq<int>, i: nat)
    requires i < |a| == |b| == |sum| && AreDigits(a) && AreDigits(b)
    requires sum[i..] == AddDigits(a[i..], b[i..], carry)
    ensures sum[i] == (carry + a[i] + b[i]) % 36
    ensures sum[i + 1..] == AddDigits(a[i + 1..], b[i + 1..], (carry + a[i] + b[i]) / 36)
  {
    assert a[i..][1..] == a[i + 1..] && b[i..][1..] == b[i + 1..];
    assert sum[i + 1..] == sum[i..][1..];
    assert sum[i] == sum[i..][0];
  }

  method NewBuffer(dir: string, extLen: nat) returns (fileName: array<char>, pathLen: nat)
    ensures fresh(fileName) && fileName.Length == |dir| + 1 + 8 + 1 + extLen + 1
    ensures pathLen == |Prefix(dir)| && fileName[..pathLen] == Prefix(dir)
  {
    fileName := new char[|dir| + 1 + 8 + 1 + extLen + 1](_ => '\0');
    pathLen := |dir|;
    forall k | 0 <= k < |dir| {
      fileName[k] := dir[k];
    }
    if pathLen > 0 && fileName[pathLen - 1] != '\\' && fileName[pathLen - 1] != '/'
       && fileName[pathLen - 1] != PATH_DELIM {
      fileName[pathLen] := PATH_DELIM;
      pathLen := pathLen + 1;
    }
  }

  /** The final print of counter digit, dot and extension. */
  method PrintTail(fileName: array<char>, at: nat, c: char, ext: string)
    requires at + 2 + |ext| + 1 <= fileName.Length
    modifies fileName
    ensures HoldsString(fileName, old(fileName[..at]) + [c] + "." + ext)
  {
    fileName[at], fileName[at + 1] := c, '.';
    forall k | 0 <= k < |ext| {
      fileName[at + 2 + k] := ext[k];
    }
    fileName[at + 2 + |ext|] := '\0';
    assert fileName[..at] == old(fileName[..at]);
    assert fileName[at..at + 2] == [c] + ".";
    assert fileName[at + 2..at + 2 + |ext|] == ext;
  }

  /** The offset times 36, cut into seven digits: the multiplication is the leading zero. */
  method OffsetDigits(offset: nat) returns (offset36: array<int>)
    ensures fresh(offset36) && offset36.Length == 7
    ensures offset36[..] == ToDigits(36 * offset, WIDTH)
  {
    hide ToDigits;
    offset36 := new int[7];
    offset36[0] := 0;
    var rest := offset;
    DigitsShift(offset);
    for i := 1 to 7
      invariant ToDigits(36 * offset, WIDTH) == offset36[..i] + ToDigits(rest, WIDTH - i)
    {
      DigitsNext(rest, WIDTH - i);
      offset36[i] := rest % 36;
      rest := rest / 36;
    }
    DigitsNone(rest);
  }

  lemma DigitsShift(offset: nat)
    ensures ToDigits(36 * offset, WIDTH) == [0] + ToDigits(offset, WIDTH - 1)
  {
    hide ToDigits;
    DigitsNext(36 * offset, WIDTH);
    assert 36 * offset % 36 == 0 && 36 * offset / 36 == offset;
  }
}
