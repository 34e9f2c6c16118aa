/** The formatter: a scan of the format that measures, or writes into a bounded buffer. */
module Format {
  import opened Machine
  import opened Options
  import opened Numbers
  import opened Printers

  const SOH: char := '\U{1}'
  const NUL: char := '\0'
  const LONG: nat := 0x1_0000_0000_0000_0000

  /** The longest number: 32 binary digits and their prefix. */
  const LONGEST: nat := 34

  /** A variable argument, read as a number or as a string. */
  datatype Arg = Arg(num: nat, text: string)

  type Args = nat -> Arg

  /** What the scan does at one place: the text to emit, whether an argument is used up, where to go
      on when the text fits and when it does not, and whether the scan ends in the latter case. */
  datatype Piece = Piece(text: string, uses: nat, hit: nat, miss: nat, stop: bool)

  function CharAt(fmt: string, i: nat): char { if i < |fmt| then fmt[i] else NUL }

  function PieceAt(fmt: string, i: nat, arg: Arg): (p: Piece)
    ensures i < p.hit && i < p.miss
  {
    var ch := CharAt(fmt, i + 1);
    if |fmt| <= i then Piece("", 0, i + 1, i + 1, true)
    else if i == 0 && fmt[i] == SOH then Piece("", 0, 2, 2, false)
    else if fmt[i] != '%' then Piece([fmt[i]], 0, i + 1, i + 1, true)
    else if ch == 'c' then Piece([(arg.num % 256) as char], 1, i + 2, i + 2, false)
    else if ch == 'd' then Piece(Text(arg.num % WORD, 10, false), 1, i + 2, i + 2, false)
    else if ch == 'l' && CharAt(fmt, i + 2) == 'd' then Piece(Text(arg.num % LONG, 10, false), 1, i + 3, i + 2, false)
    else if ch == 's' then Piece(arg.text, 1, i + 2, i + 2, false)
    else if ch == 'x' || ch == 'p' then Piece(Hex(arg.num % WORD, false), 1, i + 2, i + 2, false)
    else if ch == 'b' then Piece(Binary(arg.num % WORD), 1, i + 2, i + 2, false)
    else Piece("%", 0, i + 1, i + 2, false)
  }

  /** The pieces by place in the format and arguments used before. */
  type Pieces = (nat, nat) -> Piece

  ghost predicate Forward(at: Pieces) { forall i: nat, k: nat :: i < at(i, k).hit && i < at(i, k).miss }

  ghost predicate PieceIs(at: Pieces, fmt: string, args: Args, i: nat, k: nat) { at(i, k) == PieceAt(fmt, i, args(k)) }

  ghost predicate Describes(at: Pieces, fmt: string, args: Args) {
    Forward(at) && forall i: nat, k: nat {:trigger PieceIs(at, fmt, args, i, k)} :: PieceIs(at, fmt, args, i, k)
  }

  function PiecesOf(fmt: string, args: Args): (at: Pieces)
    ensures forall i: nat, k: nat :: at(i, k) == PieceAt(fmt, i, args(k))
    ensures Forward(at)
  {
    var at := (i: nat, k: nat) => PieceAt(fmt, i, args(k));
    assert forall i: nat, k: nat :: at(i, k) == PieceAt(fmt, i, args(k));
    at
  }

  /** How a scan ended: what was emitted, and the place in the format. */
  datatype End = End(out: string, i: nat)

  /** The scan of `n` places with room for `room` characters, from place `i` with `k` arguments used. */
  function Scan(n: nat, at: Pieces, room: nat, i: nat, k: nat, out: string): (e: End)
    requires Forward(at)
    ensures |out| <= |e.out| && (|out| <= room ==> |e.out| <= room) && i <= e.i
    decreases n - i
  {
    if n <= i then End(out, i)
    else
      var p := at(i, k);
      if |out| + |p.text| <= room then Scan(n, at, room, p.hit, k + p.uses, out + p.text)
      else if p.stop then End(out, i)
      else Scan(n, at, room, p.miss, k + p.uses, out)
  }

  function Run(fmt: string, args: Args, room: nat): End { Scan(|fmt|, PiecesOf(fmt, args), room, 0, 0, "") }

  function Output(fmt: string, args: Args, room: nat): string { Run(fmt, args, room).out }

  /** The whole text, with no limit on room. */
  function Render(n: nat, at: Pieces, i: nat, k: nat): string
    requires Forward(at)
    decreases n - i
  {
    if n <= i then "" else at(i, k).text + Render(n, at, at(i, k).hit, k + at(i, k).uses)
  }

  function Whole(fmt: string, args: Args): string { Render(|fmt|, PiecesOf(fmt, args), 0, 0) }

  /** A scan depends on its room only up to what it emits: with exactly that much room it takes the
      same decisions. */
  lemma {:induction false} SameDecisions(n: nat, at: Pieces, room: nat, less: nat, i: nat, k: nat, out: string)
    requires Forward(at) && |Scan(n, at, room, i, k, out).out| <= less <= room
    ensures Scan(n, at, less, i, k, out) == Scan(n, at, room, i, k, out)
    decreases n - i
  {
    if i < n {
      var p := at(i, k);
      if |out| + |p.text| <= room {
        SameDecisions(n, at, room, less, p.hit, k + p.uses, out + p.text);
      } else if !p.stop {
        SameDecisions(n, at, room, less, p.miss, k + p.uses, out);
      }
    }
  }

  lemma {:induction false} ScanRenders(n: nat, at: Pieces, room: nat, i: nat, k: nat, out: string)
    requires Forward(at) && |out| + |Render(n, at, i, k)| <= room
    ensures Scan(n, at, room, i, k, out).out == out + Render(n, at, i, k)
    decreases n - i
  {
    if i < n {
      var p := at(i, k);
      var rest := Render(n, at, p.hit, k + p.uses);
      ScanRenders(n, at, room, p.hit, k + p.uses, out + p.text);
      assert out + p.text + rest == out + (p.text + rest);
    } else {
      assert out + "" == out;
    }
  }

  /** Nothing is lost exactly when the whole text fits. */
  lemma OutputIsWhole(fmt: string, args: Args, room: nat)
    ensures Output(fmt, args, room) == Whole(fmt, args) <==> |Whole(fmt, args)| <= room
  {
    var at := PiecesOf(fmt, args);
    if |Whole(fmt, args)| <= room {
      ScanRenders(|fmt|, at, room, 0, 0, "");
      assert "" + Whole(fmt, args) == Whole(fmt, args);
    }
  }

  // ---------------------------------------------------------------------------
  // Measuring: the length is a 32-bit number

  /** The test of the code before it emits `n` characters. */
  predicate Fits(lenth: nat, n: nat, room: nat) { (lenth + n) % WORD <= room }

  /** How a measuring scan ended: the length, and the place in the format. */
  datatype Mark = Mark(lenth: nat, i: nat)

  /** The scan without a buffer. */
  function Measure(n: nat, at: Pieces, room: nat, i: nat, k: nat, lenth: nat): (m: Mark)
    requires Forward(at)
    ensures (lenth <= room ==> m.lenth <= room) && i <= m.i
    decreases n - i
  {
    if n <= i then Mark(lenth, i)
    else
      var p := at(i, k);
      if Fits(lenth, |p.text|, room) then Measure(n, at, room, p.hit, k + p.uses, (lenth + |p.text|) % WORD)
      else if p.stop then Mark(lenth, i)
      else Measure(n, at, room, p.miss, k + p.uses, lenth)
  }

  function Gauge(fmt: string, args: Args, room: nat): Mark { Measure(|fmt|, PiecesOf(fmt, args), room, 0, 0, 0) }

  /** What a measuring pass reports when it is given the largest size. */
  function Measured(fmt: string, args: Args): nat { Gauge(fmt, args, WORD - 2).lenth }

  lemma {:induction false} MeasureRenders(n: nat, at: Pieces, room: nat, i: nat, k: nat, lenth: nat)
    requires Forward(at) && lenth + |Render(n, at, i, k)| <= room < WORD
    ensures Measure(n, at, room, i, k, lenth).lenth == lenth + |Render(n, at, i, k)|
    decreases n - i
  {
    if i < n {
      var p := at(i, k);
      assert (lenth + |p.text|) % WORD == lenth + |p.text|;
      MeasureRenders(n, at, room, p.hit, k + p.uses, lenth + |p.text|);
    }
  }

  /** The measured length is that of the whole text exactly when the text is shorter than the largest
      size. */
  lemma MeasuredIsWhole(fmt: string, args: Args)
    ensures Measured(fmt, args) == |Whole(fmt, args)| <==> |Whole(fmt, args)| <= WORD - 2
  {
    if |Whole(fmt, args)| <= WORD - 2 { MeasureRenders(|fmt|, PiecesOf(fmt, args), WORD - 2, 0, 0, 0); }
  }

  /** Measuring and then writing with what was measured gives the whole text exactly when the text is
      shorter than the largest size. */
  lemma TwoPassesAgree(fmt: string, args: Args)
    ensures Output(fmt, args, Measured(fmt, args)) == Whole(fmt, args) <==> |Whole(fmt, args)| <= WORD - 2
  {
    MeasuredIsWhole(fmt, args);
    OutputIsWhole(fmt, args, Measured(fmt, args));
  }

  /** Two copies of a string of 2^31 + 2 characters: 4 is measured and nothing is written. */
  lemma PassesDisagree(text: string, args: Args)
    requires |text| == 0x8000_0002 && args(0) == args(1) == Arg(0, text)
    ensures Measured("%s%s", args) == 4 && Output("%s%s", args, 4) == ""
  {
    var fmt := "%s%s";
    var at := PiecesOf(fmt, args);
    assert at(0, 0) == Piece(text, 1, 2, 2, false) && at(2, 1) == Piece(text, 1, 4, 4, false);
    assert Measure(4, at, WORD - 2, 2, 1, 0x8000_0002) == Mark(4, 4);
    assert Scan(4, at, 4, 2, 1, "") == End("", 4);
  }

  /** With a buffer every piece is short enough that no length wraps. */
  ghost predicate Short(at: Pieces, room: nat) { forall i: nat, k: nat :: room + |at(i, k).text| < WORD }

  /** A buffer of `size` characters and the strings among the arguments lie side by side in memory. */
  ghost predicate SideBySide(size: nat, args: Args) {
    size + LONGEST <= WORD && forall k: nat :: size + |args(k).text| <= WORD
  }

  lemma PieceLength(fmt: string, i: nat, arg: Arg)
    ensures |PieceAt(fmt, i, arg).text| <= LONGEST || PieceAt(fmt, i, arg).text == arg.text
  {
    DecimalLength(arg.num % LONG);
    DecimalLength(arg.num % WORD);
    HexLength(arg.num % WORD, false);
    BinaryLength(arg.num % WORD);
  }

  lemma DecimalLength(number: nat)
    requires number < LONG
    ensures |Text(number, 10, false)| <= 20
  {
    assert Power(10, 5) == 100000;
    assert Power(10, 10) == 10000000000;
    assert Power(10, 15) == 1000000000000000;
    assert Power(10, 20) == 100000000000000000000;
    TextLength(number, 10, false, 20);
  }

  lemma PiecesShort(fmt: string, args: Args, size: nat)
    requires 0 < size && SideBySide(size, args)
    ensures Short(PiecesOf(fmt, args), size - 1)
  {
    var at := PiecesOf(fmt, args);
    forall i: nat, k: nat ensures size - 1 + |at(i, k).text| < WORD {
      PieceLength(fmt, i, args(k));
    }
  }

  // ---------------------------------------------------------------------------
  // The end of the format

  /** The scan steps over the terminator and reads on behind the format. */
  predicate Overruns(fmt: string, args: Args, room: nat) { |fmt| < Run(fmt, args, room).i }

  predicate MeasureOverruns(fmt: string, args: Args, room: nat) { |fmt| < Gauge(fmt, args, room).i }

  /** A trailing percent sign that is not the level of the message. */
  predicate Trailing(fmt: string) { fmt != "" && fmt[|fmt| - 1] == '%' && fmt != [SOH, '%'] }

  predicate Harmless(fmt: string) { fmt != [SOH] && !Trailing(fmt) }

  /** Every step stays within `n` places. */
  ghost predicate Bounded(n: nat, at: Pieces) { forall i: nat, k: nat | i < n :: at(i, k).hit <= n && at(i, k).miss <= n }

  lemma {:induction false} ScanStaysInside(n: nat, at: Pieces, room: nat, i: nat, k: nat, out: string)
    requires Forward(at) && Bounded(n, at) && i <= n
    ensures Scan(n, at, room, i, k, out).i <= n
    decreases n - i
  {
    if i < n {
      var p := at(i, k);
      if |out| + |p.text| <= room {
        ScanStaysInside(n, at, room, p.hit, k + p.uses, out + p.text);
      } else if !p.stop {
        ScanStaysInside(n, at, room, p.miss, k + p.uses, out);
      }
    }
  }

  lemma {:induction false} MeasureStaysInside(n: nat, at: Pieces, room: nat, i: nat, k: nat, lenth: nat)
    requires Forward(at) && Bounded(n, at) && i <= n
    ensures Measure(n, at, room, i, k, lenth).i <= n
    decreases n - i
  {
    if i < n {
      var p := at(i, k);
      if Fits(lenth, |p.text|, room) {
        MeasureStaysInside(n, at, room, p.hit, k + p.uses, (lenth + |p.text|) % WORD);
      } else if !p.stop {
        MeasureStaysInside(n, at, room, p.miss, k + p.uses, lenth);
      }
    }
  }

  /** Every step that fits comes to the last place, and the step there leads past the end if it does
      not fit. */
  ghost predicate Ended(n: nat, at: Pieces) {
    forall i: nat, k: nat | i < n :: if i < n - 1 then at(i, k).hit < n else at(i, k) == Piece("%", 0, n, n + 1, false)
  }

  lemma {:induction false} TrailingRenders(n: nat, at: Pieces, i: nat, k: nat)
    requires Forward(at) && Ended(n, at) && i < n
    ensures Render(n, at, i, k) != ""
    decreases n - i
  {
    var p := at(i, k);
    if i < n - 1 { TrailingRenders(n, at, p.hit, k + p.uses); }
  }

  lemma {:induction false} TrailingOverruns(n: nat, at: Pieces, room: nat, i: nat, k: nat, out: string)
    requires Forward(at) && Ended(n, at) && i < n && |out| + |Render(n, at, i, k)| == room + 1
    ensures n < Scan(n, at, room, i, k, out).i
    decreases n - i
  {
    var p := at(i, k);
    if i < n - 1 {
      TrailingRenders(n, at, p.hit, k + p.uses);
      TrailingOverruns(n, at, room, p.hit, k + p.uses, out + p.text);
    } else {
      assert Render(n, at, n, k) == "";
    }
  }

  lemma PiecesInside(fmt: string, args: Args)
    requires Harmless(fmt) && fmt != [SOH, '%']
    ensures Bounded(|fmt|, PiecesOf(fmt, args))
  {
  }

  lemma PiecesEnded(fmt: string, args: Args)
    requires Trailing(fmt)
    ensures Ended(|fmt|, PiecesOf(fmt, args))
  {
  }

  lemma LevelOnly(fmt: string, args: Args, room: nat)
    requires 1 <= |fmt| <= 2 && fmt[0] == SOH
    ensures Run(fmt, args, room).i == 2 && Gauge(fmt, args, room).i == 2
  {
    assert PiecesOf(fmt, args)(0, 0) == Piece("", 0, 2, 2, false);
  }

  /** A format is read within its bounds, for all arguments and any room, exactly when it is neither
      a lone level mark nor ends in a percent sign. */
  lemma HarmlessFormats(fmt: string)
    ensures (forall args: Args, room: nat :: !Overruns(fmt, args, room)) <==> Harmless(fmt)
    ensures Harmless(fmt) ==> forall args: Args, room: nat :: !MeasureOverruns(fmt, args, room)
  {
    if Harmless(fmt) {
      forall args: Args, room: nat ensures !Overruns(fmt, args, room) && !MeasureOverruns(fmt, args, room) {
        if fmt == [SOH, '%'] {
          LevelOnly(fmt, args, room);
        } else {
          PiecesInside(fmt, args);
          ScanStaysInside(|fmt|, PiecesOf(fmt, args), room, 0, 0, "");
          MeasureStaysInside(|fmt|, PiecesOf(fmt, args), room, 0, 0, 0);
        }
      }
    } else {
      var args: Args := _ => Arg(0, "");
      var at := PiecesOf(fmt, args);
      if fmt == [SOH] {
        LevelOnly(fmt, args, 0);
        assert Overruns(fmt, args, 0);
      } else {
        PiecesEnded(fmt, args);
        TrailingRenders(|fmt|, at, 0, 0);
        var room := |Whole(fmt, args)| - 1;
        TrailingOverruns(|fmt|, at, room, 0, 0, "");
        assert Overruns(fmt, args, room);
      }
    }
  }

  lemma {:induction false} FittingStaysInside(n: nat, at: Pieces, room: nat, i: nat, k: nat, out: string)
    requires Forward(at) && (forall j: nat, l: nat | j < n :: at(j, l).hit <= n) && i <= n
    requires |out| + |Render(n, at, i, k)| <= room
    ensures Scan(n, at, room, i, k, out).i <= n
    decreases n - i
  {
    if i < n {
      var p := at(i, k);
      FittingStaysInside(n, at, room, p.hit, k + p.uses, out + p.text);
    }
  }

  /** With room for the whole text only the lone level mark is read past its end. */
  lemma RoomKeepsInside(fmt: string, args: Args, room: nat)
    requires |Whole(fmt, args)| <= room
    ensures Overruns(fmt, args, room) <==> fmt == [SOH]
  {
    if fmt == [SOH] {
      LevelOnly(fmt, args, room);
    } else {
      FittingStaysInside(|fmt|, PiecesOf(fmt, args), room, 0, 0, "");
    }
  }

  // ---------------------------------------------------------------------------
  // The formatter

  /** Room for the terminator is kept back in every buffer, and a piece of `n` characters does not make
      the length wrap. */
  predicate HasRoom(buf: array?<char>, room: nat, lenth: nat, n: nat) {
    buf == null || (room < buf.Length && lenth + n < WORD)
  }

  method EmitChar(buf: array?<char>, room: nat, lenth: nat, ch: char) returns (fits: bool)
    requires HasRoom(buf, room, lenth, 1)
    modifies if buf == null then {} else {buf}
    ensures fits <==> Fits(lenth, 1, room)
    ensures buf != null ==> buf[..] == if fits then Put(old(buf[..]), lenth, [ch]) else old(buf[..])
  {
    if (lenth + 1) % WORD > room { return false; }
    if buf != null {
      buf[lenth] := ch;
      assert buf[..] == Put(old(buf[..]), lenth, [ch]);
    }
    return true;
  }

  method EmitText(buf: array?<char>, room: nat, lenth: nat, text: string) returns (fits: bool)
    requires HasRoom(buf, room, lenth, |text|)
    modifies if buf == null then {} else {buf}
    ensures fits <==> Fits(lenth, |text|, room)
    ensures buf != null ==> buf[..] == if fits then Put(old(buf[..]), lenth, text) else old(buf[..])
  {
    if (lenth + |text|) % WORD > room { return false; }
    if buf != null {
      var j := 0;
      while j < |text|
        invariant j <= |text|
        invariant forall i | 0 <= i < buf.Length ::
          buf[i] == if lenth <= i < lenth + j then text[i - lenth] else old(buf[i])
      {
        buf[lenth + j] := text[j];
        j := j + 1;
      }
      assert buf[..] == Put(old(buf[..]), lenth, text);
    }
    return true;
  }

  method EmitDecimal(buf: array?<char>, room: nat, lenth: nat, num: nat) returns (fits: bool, count: nat)
    requires HasRoom(buf, room, lenth, |Text(num, 10, false)|)
    modifies if buf == null then {} else {buf}
    ensures count == |Text(num, 10, false)| && (fits <==> Fits(lenth, count, room))
    ensures buf != null ==> buf[..] == if fits then Put(old(buf[..]), lenth, Text(num, 10, false)) else old(buf[..])
  {
    count := ConvertNumber(null, 0, num);
    if (lenth + count) % WORD > room { return false, count; }
    count := ConvertNumber(buf, lenth, num);
    return true, count;
  }

  method EmitHex(buf: array?<char>, room: nat, lenth: nat, num: nat) returns (fits: bool, count: nat)
    requires num < WORD && HasRoom(buf, room, lenth, |Hex(num, false)|)
    modifies if buf == null then {} else {buf}
    ensures count == |Hex(num, false)| && (fits <==> Fits(lenth, count, room))
    ensures buf != null ==> buf[..] == if fits then Put(old(buf[..]), lenth, Hex(num, false)) else old(buf[..])
  {
    count := DecToHex(null, 0, num, false);
    if (lenth + count) % WORD > room { return false, count; }
    count := DecToHex(buf, lenth, num, false);
    return true, count;
  }

  method EmitBinary(buf: array?<char>, room: nat, lenth: nat, num: nat) returns (fits: bool, count: nat)
    requires num < WORD && HasRoom(buf, room, lenth, |Binary(num)|)
    modifies if buf == null then {} else {buf}
    ensures count == |Binary(num)| && (fits <==> Fits(lenth, count, room))
    ensures buf != null ==> buf[..] == if fits then Put(old(buf[..]), lenth, Binary(num)) else old(buf[..])
  {
    count := DecToBinary(null, 0, num);
    if (lenth + count) % WORD > room { return false, count; }
    count := DecToBinary(buf, lenth, num);
    return true, count;
  }

  /** One directive, from its percent sign on. */
  method Directive(buf: array?<char>, fmt: string, arg: Arg, room: nat, i: nat, lenth: nat, ghost p: Piece)
    returns (next: nat, uses: nat, total: nat)
    requires i < |fmt| && fmt[i] == '%' && p == PieceAt(fmt, i, arg) && HasRoom(buf, room, lenth, |p.text|)
    modifies if buf == null then {} else {buf}
    ensures uses == p.uses && next == (if Fits(lenth, |p.text|, room) then p.hit else p.miss)
    ensures total == if Fits(lenth, |p.text|, room) then (lenth + |p.text|) % WORD else lenth
    ensures buf != null ==>
      buf[..] == if Fits(lenth, |p.text|, room) then Put(old(buf[..]), lenth, p.text) else old(buf[..])
  {
    var ch := CharAt(fmt, i + 1);
    var fits, count := false, 1;
    uses, next := 1, i + 2;
    if ch == 'c' {
      fits := EmitChar(buf, room, lenth, (arg.num % 256) as char);
    } else if ch == 'd' {
      fits, count := EmitDecimal(buf, room, lenth, arg.num % WORD);
    } else if ch == 'l' && CharAt(fmt, i + 2) == 'd' {
      fits, count := EmitDecimal(buf, room, lenth, arg.num % LONG);
      if fits { next := i + 3; }
    } else if ch == 's' {
      count := |arg.text|;
      fits := EmitText(buf, room, lenth, arg.text);
    } else if ch == 'x' || ch == 'p' {
      fits, count := EmitHex(buf, room, lenth, arg.num % WORD);
    } else if ch == 'b' {
      fits, count := EmitBinary(buf, room, lenth, arg.num % WORD);
    } else {
      fits := EmitChar(buf, room, lenth, '%');
      uses := 0;
      if fits { next := i + 1; }
    }
    total := if fits then (lenth + count) % WORD else lenth;
  }

  function Emitted(out: string, t: string, room: nat): (r: string)
    ensures |out| <= room ==> |r| <= room
  {
    if |out| + |t| <= room then out + t else out
  }

  lemma PutPut(s: string, out: string, t: string)
    requires |out| + |t| <= |s|
    ensures Put(Put(s, 0, out), |out|, t) == Put(s, 0, out + t)
  {
  }

  /** One place of the format: a plain character, the level mark or a directive. */
  method Place(buf: array?<char>, fmt: string, arg: Arg, room: nat, i: nat, lenth: nat, ghost p: Piece)
    returns (next: nat, uses: nat, total: nat, stop: bool)
    requires i < |fmt| && p == PieceAt(fmt, i, arg) && lenth <= room < WORD && HasRoom(buf, room, lenth, |p.text|)
    modifies if buf == null then {} else {buf}
    ensures stop <==> !Fits(lenth, |p.text|, room) && p.stop
    ensures !stop ==> uses == p.uses && next == (if Fits(lenth, |p.text|, room) then p.hit else p.miss)
    ensures total == if Fits(lenth, |p.text|, room) then (lenth + |p.text|) % WORD else lenth
    ensures buf != null ==>
      buf[..] == if Fits(lenth, |p.text|, room) then Put(old(buf[..]), lenth, p.text) else old(buf[..])
  {
    var ch := fmt[i];
    next, uses, total, stop := i + 1, 0, lenth, false;
    if i == 0 && ch == SOH {
      next := i + 2;
      if buf != null { assert buf[..] == Put(old(buf[..]), lenth, ""); }
      return;
    }
    if ch != '%' {
      var fits := EmitChar(buf, room, lenth, ch);
      total := if fits then (lenth + 1) % WORD else lenth;
      stop := !fits;
      return;
    }
    next, uses, total := Directive(buf, fmt, arg, room, i, lenth, p);
  }

  /** A place, in terms of what has been written before it to a buffer that held `base`. */
  method NextPlace(buf: array?<char>, fmt: string, args: Args, room: nat, i: nat, k: nat, lenth: nat,
                   ghost base: string, ghost out: string, ghost at: Pieces, ghost p: Piece)
    returns (next: nat, used: nat, total: nat, stop: bool)
    requires i < |fmt| && Describes(at, fmt, args) && p == at(i, k) && lenth <= room < WORD
    requires buf != null ==> room < buf.Length && room + |p.text| < WORD && lenth == |out|
    requires buf != null ==> |base| == buf.Length && buf[..] == Put(base, 0, out)
    modifies if buf == null then {} else {buf}
    ensures stop <==> !Fits(lenth, |p.text|, room) && p.stop
    ensures !stop ==> used == k + p.uses && next == (if Fits(lenth, |p.text|, room) then p.hit else p.miss)
    ensures total == if Fits(lenth, |p.text|, room) then (lenth + |p.text|) % WORD else lenth
    ensures buf != null ==> (Fits(lenth, |p.text|, room) <==> |out| + |p.text| <= room)
    ensures buf != null ==> total == |Emitted(out, p.text, room)| && buf[..] == Put(base, 0, Emitted(out, p.text, room))
  {
    assert PieceIs(at, fmt, args, i, k);
    if buf != null { assert (lenth + |p.text|) % WORD == lenth + |p.text|; }
    var uses;
    next, uses, total, stop := Place(buf, fmt, args(k), room, i, lenth, p);
    used := k + uses;
    if buf != null && |out| + |p.text| <= room { PutPut(base, out, p.text); }
  }

  /** The scan over all places of the format. */
  method Places(buf: array?<char>, fmt: string, args: Args, room: nat, ghost at: Pieces, ghost m: Mark, ghost e: End)
    returns (lenth: nat)
    requires Describes(at, fmt, args) && room < WORD && (buf != null ==> room < buf.Length && Short(at, room))
    requires buf == null ==> m == Measure(|fmt|, at, room, 0, 0, 0) && m.i <= |fmt|
    requires buf != null ==> e == Scan(|fmt|, at, room, 0, 0, "") && e.i <= |fmt|
    modifies if buf == null then {} else {buf}
    ensures lenth <= room && (buf == null ==> lenth == m.lenth)
    ensures buf != null ==> lenth == |e.out| && buf[..] == Put(old(buf[..]), 0, e.out)
  {
    var i, k, stop := 0, 0, false;
    lenth := 0;
    ghost var out, base := "", if buf == null then "" else buf[..];
    if buf != null { assert buf[..] == Put(base, 0, ""); }
    while i < |fmt| && !stop
      invariant lenth <= room && i <= |fmt|
      invariant buf == null ==> m == if stop then Mark(lenth, i) else Measure(|fmt|, at, room, i, k, lenth)
      invariant buf != null ==> lenth == |out| && e == if stop then End(out, i) else Scan(|fmt|, at, room, i, k, out)
      invariant buf != null ==> |base| == buf.Length && buf[..] == Put(base, 0, out)
      decreases |fmt| - i, !stop
    {
      ghost var p := at(i, k);
      var next, used;
      next, used, lenth, stop := NextPlace(buf, fmt, args, room, i, k, lenth, base, out, at, p);
      out := Emitted(out, p.text, room);
      if !stop { i, k := next, used; }
    }
  }

  /** The formatter.  Without a buffer it measures, in 32-bit arithmetic; with one it writes at most
      `size - 1` characters and the terminator, and `size` zero writes nothing. */
  method FmtConvert(buf: array?<char>, fmt: string, args: Args, size: nat) returns (lenth: nat, level: Option<char>)
    requires size < WORD && (buf != null ==> size <= buf.Length && SideBySide(size, args))
    requires 0 < size ==> if buf == null then !MeasureOverruns(fmt, args, size - 1) else !Overruns(fmt, args, size - 1)
    modifies if buf == null then {} else {buf}
    ensures size == 0 ==> lenth == 0 && (buf != null ==> buf[..] == old(buf[..]))
    ensures 0 < size && buf == null ==> lenth == Gauge(fmt, args, size - 1).lenth <= size - 1
    ensures 0 < size && buf != null ==> lenth == |Output(fmt, args, size - 1)| <= size - 1
    ensures 0 < size && buf != null ==> buf[..] == Put(old(buf[..]), 0, Output(fmt, args, size - 1) + [NUL])
    ensures level == if 0 < size && 1 < |fmt| && fmt[0] == SOH then Some(fmt[1]) else None
  {
    lenth, level := 0, None;
    if size < 1 { return; }
    if 1 < |fmt| && fmt[0] == SOH { level := Some(fmt[1]); }
    ghost var out, at := Output(fmt, args, size - 1), PiecesOf(fmt, args);
    forall i: nat, k: nat ensures PieceIs(at, fmt, args, i, k) { }
    if buf != null { PiecesShort(fmt, args, size); }
    lenth := Places(buf, fmt, args, size - 1, at, Gauge(fmt, args, size - 1), Run(fmt, args, size - 1));
    if buf != null {
      PutPut(old(buf[..]), out, [NUL]);
      ghost var was := buf[..];
      buf[lenth] := NUL;
      assert buf[..] == Put(was, lenth, [NUL]);
    }
  }

  /** Measure, allocate, write.  `grant` says whether the allocator has the memory, which then lies beside
      the strings among the arguments. */
  method VasPrintk(fmt: string, args: Args, grant: bool) returns (buf: array?<char>, lenth: nat)
    requires !MeasureOverruns(fmt, args, WORD - 2)
    requires grant ==> SideBySide(Measured(fmt, args) + 1, args) && !Overruns(fmt, args, Measured(fmt, args))
    ensures (buf != null <==> grant) && lenth == Measured(fmt, args)
    ensures buf != null ==> buf.Length == lenth + 1 && Output(fmt, args, lenth) + [NUL] <= buf[..]
    ensures buf != null ==> (buf[..] == Whole(fmt, args) + [NUL] <==> |Whole(fmt, args)| <= WORD - 2)
  {
    var level;
    lenth, level := FmtConvert(null, fmt, args, WORD - 1);
    buf := null;
    if !grant { return; }
    TwoPassesAgree(fmt, args);
    MeasuredIsWhole(fmt, args);
    buf := new char[lenth + 1];
    var written;
    written, level := FmtConvert(buf, fmt, args, lenth + 1);
  }
}
