/** What a format means: how each part of it contributes to the text, and what is lost when room runs out. */
module Directives {
  import opened Machine
  import opened Numbers
  import opened Format

  predicate Plain(s: string) { '%' !in s }

  predicate Marked(s: string) { s != "" && s[0] == SOH }

  /** The rest of a format behind plain text: it ends or goes on with a percent sign. */
  predicate Breaks(s: string) { s == "" || s[0] == '%' }

  /** The arguments behind the first `n`. */
  function After(args: Args, n: nat): Args { (k: nat) => args(n + k) }

  /** Plain text and then the rest of the format: text that does not fit is cut off and ends the output. */
  function Then(plain: string, rest: string, args: Args, room: nat): string {
    if |plain| <= room then plain + Output(rest, args, room - |plain|) else plain[..room]
  }

  /** A converted argument before that: text that does not fit is left out. */
  function Converted(text: string, plain: string, rest: string, args: Args, room: nat): string {
    if |text| <= room then text + Then(plain, rest, args, room - |text|) else Then(plain, rest, args, room)
  }

  // ---------------------------------------------------------------------------
  // A scan from the middle of a format

  function Shifted(p: Piece, n: nat): Piece { p.(hit := n + p.hit, miss := n + p.miss) }

  ghost predicate ShiftedAt(at: Pieces, own: Pieces, n: nat, m: nat, i: nat, k: nat) {
    at(n + i, m + k) == Shifted(own(i, k), n)
  }

  ghost predicate ShiftedBy(at: Pieces, own: Pieces, n: nat, m: nat, size: nat) {
    forall i: nat, k: nat {:trigger ShiftedAt(at, own, n, m, i, k)} | i < size :: ShiftedAt(at, own, n, m, i, k)
  }

  ghost predicate PlainAt(at: Pieces, plain: string, n: nat, k: nat, j: nat)
    requires j < |plain|
  {
    at(n + j, k) == Piece([plain[j]], 0, n + j + 1, n + j + 1, true)
  }

  ghost predicate PlainFrom(at: Pieces, plain: string, n: nat, k: nat) {
    forall j: nat {:trigger PlainAt(at, plain, n, k, j)} | j < |plain| :: PlainAt(at, plain, n, k, j)
  }

  lemma {:induction false} ScanShift(at: Pieces, own: Pieces, n: nat, m: nat, size: nat, room: nat, i: nat, k: nat,
                                     done: string, out: string)
    requires Forward(at) && Forward(own) && ShiftedBy(at, own, n, m, size) && |done| + |out| <= room
    ensures Scan(n + size, at, room, n + i, m + k, done + out).out == done + Scan(size, own, room - |done|, i, k, out).out
    decreases size - i
  {
    if i < size {
      var p := own(i, k);
      assert ShiftedAt(at, own, n, m, i, k);
      if |done| + |out| + |p.text| <= room {
        ScanShift(at, own, n, m, size, room, p.hit, k + p.uses, done, out + p.text);
        assert done + out + p.text == done + (out + p.text) && m + k + p.uses == m + (k + p.uses);
      } else if !p.stop {
        ScanShift(at, own, n, m, size, room, p.miss, k + p.uses, done, out);
      }
    }
  }

  lemma PlainTail(at: Pieces, plain: string, i: nat, k: nat, next: nat)
    requires plain != "" && PlainFrom(at, plain, i, k) && next == i + 1
    ensures PlainFrom(at, plain[1..], next, k)
  {
    var tail := plain[1..];
    forall j: nat | j < |tail| ensures PlainAt(at, tail, next, k, j) {
      assert PlainAt(at, plain, i, k, j + 1);
    }
  }

  lemma {:induction false} PlainScan(n: nat, at: Pieces, plain: string, room: nat, i: nat, k: nat, out: string)
    requires Forward(at) && i + |plain| <= n && |out| <= room && PlainFrom(at, plain, i, k)
    ensures Scan(n, at, room, i, k, out).out ==
            if |out| + |plain| <= room then Scan(n, at, room, i + |plain|, k, out + plain).out
            else out + plain[..room - |out|]
    decreases |plain|
  {
    if plain == "" {
      assert out + plain == out;
    } else {
      assert PlainAt(at, plain, i, k, 0);
      if |out| < room {
        var tail := plain[1..];
        PlainTail(at, plain, i, k, i + 1);
        PlainScan(n, at, tail, room, i + 1, k, out + [plain[0]]);
        if room < |out| + |plain| {
          assert out + [plain[0]] + tail[..room - |out| - 1] == out + plain[..room - |out|];
        } else {
          assert out + [plain[0]] + tail == out + plain;
        }
      } else {
        assert out + plain[..0] == out;
      }
    }
  }

  function ThenOwn(own: Pieces, plain: string, size: nat, room: nat): string
    requires Forward(own)
  {
    if |plain| <= room then plain + Scan(size, own, room - |plain|, 0, 0, "").out else plain[..room]
  }

  /** Plain text at place `n` and behind it the pieces of the rest. */
  lemma PlainThenOwn(at: Pieces, own: Pieces, plain: string, size: nat, room: nat, n: nat, m: nat, done: string)
    requires Forward(at) && Forward(own) && |done| <= room
    requires PlainFrom(at, plain, n, m) && ShiftedBy(at, own, n + |plain|, m, size)
    ensures Scan(n + |plain| + size, at, room, n, m, done).out
            == done + ThenOwn(own, plain, size, room - |done|)
  {
    PlainScan(n + |plain| + size, at, plain, room, n, m, done);
    if |done| + |plain| <= room {
      var end := Scan(size, own, room - |done| - |plain|, 0, 0, "").out;
      ScanShift(at, own, n + |plain|, m, size, room, 0, 0, done + plain, "");
      assert done + plain + "" == done + plain && done + plain + end == done + (plain + end);
    }
  }

  lemma PlainFirst(at: Pieces, own: Pieces, plain: string, size: nat, room: nat)
    requires Forward(at) && Forward(own) && PlainFrom(at, plain, 0, 0) && ShiftedBy(at, own, |plain|, 0, size)
    ensures Scan(|plain| + size, at, room, 0, 0, "").out == ThenOwn(own, plain, size, room)
  {
    PlainThenOwn(at, own, plain, size, room, 0, 0, "");
    assert "" + ThenOwn(own, plain, size, room) == ThenOwn(own, plain, size, room);
  }

  /** From the first piece to the rest, if its text fits and if it does not. */
  lemma HitThenOwn(at: Pieces, own: Pieces, p: Piece, plain: string, size: nat, room: nat)
    requires Forward(at) && Forward(own) && at(0, 0) == p && |p.text| <= room && 0 < p.hit + |plain| + size
    requires PlainFrom(at, plain, p.hit, p.uses) && ShiftedBy(at, own, p.hit + |plain|, p.uses, size)
    ensures Scan(p.hit + |plain| + size, at, room, 0, 0, "").out == p.text + ThenOwn(own, plain, size, room - |p.text|)
  {
    assert "" + p.text == p.text;
    PlainThenOwn(at, own, plain, size, room, p.hit, p.uses, p.text);
  }

  lemma MissThenOwn(at: Pieces, own: Pieces, p: Piece, plain: string, size: nat, room: nat)
    requires Forward(at) && Forward(own) && at(0, 0) == p && room < |p.text| && !p.stop && 0 < p.miss + |plain| + size
    requires PlainFrom(at, plain, p.miss, p.uses) && ShiftedBy(at, own, p.miss + |plain|, p.uses, size)
    ensures Scan(p.miss + |plain| + size, at, room, 0, 0, "").out == ThenOwn(own, plain, size, room)
  {
    PlainThenOwn(at, own, plain, size, room, p.miss, p.uses, "");
    assert "" + ThenOwn(own, plain, size, room) == ThenOwn(own, plain, size, room);
  }

  lemma PieceShift(a: string, b: string, i: nat, arg: Arg)
    requires a != "" && !Marked(b) && i < |b|
    ensures PieceAt(a + b, |a| + i, arg) == Shifted(PieceAt(b, i, arg), |a|)
  {
    assert CharAt(a + b, |a| + i + 1) == CharAt(b, i + 1) && CharAt(a + b, |a| + i + 2) == CharAt(b, i + 2);
  }

  lemma PiecesShift(a: string, b: string, args: Args, m: nat)
    requires a != "" && !Marked(b)
    ensures ShiftedBy(PiecesOf(a + b, args), PiecesOf(b, After(args, m)), |a|, m, |b|)
  {
    forall i: nat, k: nat | i < |b| ensures ShiftedAt(PiecesOf(a + b, args), PiecesOf(b, After(args, m)), |a|, m, i, k) {
      PieceShift(a, b, i, args(m + k));
    }
  }

  lemma PlainPieces(a: string, plain: string, rest: string, args: Args, m: nat)
    requires Plain(plain) && (a == "" ==> !Marked(plain))
    ensures PlainFrom(PiecesOf(a + plain + rest, args), plain, |a|, m)
  {
    forall j: nat | j < |plain| ensures PlainAt(PiecesOf(a + plain + rest, args), plain, |a|, m, j) {
      assert (a + plain + rest)[|a| + j] == plain[j];
    }
  }

  // ---------------------------------------------------------------------------
  // The parts of a format

  /** Plain text is copied. */
  lemma PlainPrints(plain: string, rest: string, args: Args, room: nat)
    requires Plain(plain) && !Marked(plain) && Breaks(rest)
    ensures Output(plain + rest, args, room) == Then(plain, rest, args, room)
  {
    if plain == "" {
      assert plain + rest == rest && "" + Output(rest, args, room) == Output(rest, args, room);
    } else {
      assert "" + plain + rest == plain + rest;
      PlainPieces("", plain, rest, args, 0);
      PiecesShift(plain, rest, args, 0);
      PlainFirst(PiecesOf(plain + rest, args), PiecesOf(rest, After(args, 0)), plain, |rest|, room);
      SameThen(plain, rest, args, room);
    }
  }

  lemma {:induction false} SamePieces(n: nat, at: Pieces, own: Pieces, room: nat, i: nat, k: nat, out: string)
    requires Forward(at) && Forward(own) && forall j: nat, l: nat :: at(j, l) == own(j, l)
    ensures Scan(n, at, room, i, k, out) == Scan(n, own, room, i, k, out)
    decreases n - i
  {
    if i < n {
      var p := at(i, k);
      if |out| + |p.text| <= room {
        SamePieces(n, at, own, room, p.hit, k + p.uses, out + p.text);
      } else if !p.stop {
        SamePieces(n, at, own, room, p.miss, k + p.uses, out);
      }
    }
  }

  lemma SameArgs(fmt: string, args: Args, room: nat)
    ensures Output(fmt, After(args, 0), room) == Output(fmt, args, room)
  {
    SamePieces(|fmt|, PiecesOf(fmt, After(args, 0)), PiecesOf(fmt, args), room, 0, 0, "");
  }

  /** The mark and the level at the start of a message print nothing. */
  lemma LevelPrintsNothing(level: char, plain: string, rest: string, args: Args, room: nat)
    requires Plain(plain) && Breaks(rest)
    ensures Output([SOH, level] + plain + rest, args, room) == Then(plain, rest, args, room)
  {
    Hit([SOH, level], plain, rest, args, room, Piece("", 0, 2, 2, false));
    SameThen(plain, rest, args, room);
  }

  lemma SameThen(plain: string, rest: string, args: Args, room: nat)
    ensures Then(plain, rest, After(args, 0), room) == Then(plain, rest, args, room)
    ensures "" + Then(plain, rest, args, room) == Then(plain, rest, args, room)
  {
    if |plain| <= room { SameArgs(rest, args, room - |plain|); }
  }

  lemma Hit(a: string, plain: string, rest: string, args: Args, room: nat, p: Piece)
    requires a != "" && Plain(plain) && Breaks(rest)
    requires PieceAt(a + plain + rest, 0, args(0)) == p && p.hit == |a| && |p.text| <= room
    ensures Output(a + plain + rest, args, room) == p.text + Then(plain, rest, After(args, p.uses), room - |p.text|)
  {
    PlainPieces(a, plain, rest, args, p.uses);
    PiecesShift(a + plain, rest, args, p.uses);
    HitThenOwn(PiecesOf(a + plain + rest, args), PiecesOf(rest, After(args, p.uses)), p, plain, |rest|, room);
  }

  lemma Miss(a: string, plain: string, rest: string, args: Args, room: nat, p: Piece)
    requires a != "" && Plain(plain) && Breaks(rest)
    requires PieceAt(a + plain + rest, 0, args(0)) == p && p.miss == |a| && room < |p.text| && !p.stop
    ensures Output(a + plain + rest, args, room) == Then(plain, rest, After(args, p.uses), room)
  {
    PlainPieces(a, plain, rest, args, p.uses);
    PiecesShift(a + plain, rest, args, p.uses);
    MissThenOwn(PiecesOf(a + plain + rest, args), PiecesOf(rest, After(args, p.uses)), p, plain, |rest|, room);
  }

  lemma Converts(dir: string, plain: string, rest: string, args: Args, room: nat, text: string)
    requires dir != "" && Plain(plain) && Breaks(rest)
    requires PieceAt(dir + plain + rest, 0, args(0)) == Piece(text, 1, |dir|, |dir|, false)
    ensures Output(dir + plain + rest, args, room) == Converted(text, plain, rest, After(args, 1), room)
  {
    var p := Piece(text, 1, |dir|, |dir|, false);
    if |text| <= room { Hit(dir, plain, rest, args, room, p); } else { Miss(dir, plain, rest, args, room, p); }
  }

  lemma CharPrints(plain: string, rest: string, args: Args, room: nat)
    requires Plain(plain) && Breaks(rest)
    ensures Output("%c" + plain + rest, args, room)
            == Converted([(args(0).num % 256) as char], plain, rest, After(args, 1), room)
  {
    Converts("%c", plain, rest, args, room, [(args(0).num % 256) as char]);
  }

  lemma DecimalPrints(plain: string, rest: string, args: Args, room: nat)
    requires Plain(plain) && Breaks(rest)
    ensures Output("%d" + plain + rest, args, room)
            == Converted(Text(args(0).num % 0x1_0000_0000, 10, false), plain, rest, After(args, 1), room)
  {
    Converts("%d", plain, rest, args, room, Text(args(0).num % 0x1_0000_0000, 10, false));
  }

  lemma StringPrints(plain: string, rest: string, args: Args, room: nat)
    requires Plain(plain) && Breaks(rest)
    ensures Output("%s" + plain + rest, args, room) == Converted(args(0).text, plain, rest, After(args, 1), room)
  {
    Converts("%s", plain, rest, args, room, args(0).text);
  }

  lemma HexPrints(letter: char, plain: string, rest: string, args: Args, room: nat)
    requires (letter == 'x' || letter == 'p') && Plain(plain) && Breaks(rest)
    ensures Output(['%', letter] + plain + rest, args, room)
            == Converted(Hex(args(0).num % 0x1_0000_0000, false), plain, rest, After(args, 1), room)
  {
    Converts(['%', letter], plain, rest, args, room, Hex(args(0).num % 0x1_0000_0000, false));
  }

  lemma BinaryPrints(plain: string, rest: string, args: Args, room: nat)
    requires Plain(plain) && Breaks(rest)
    ensures Output("%b" + plain + rest, args, room)
            == Converted(Binary(args(0).num % 0x1_0000_0000), plain, rest, After(args, 1), room)
  {
    Converts("%b", plain, rest, args, room, Binary(args(0).num % 0x1_0000_0000));
  }

  /** A 64-bit number that does not fit is left out, but the letter d of its directive is then plain text. */
  lemma LongPrints(plain: string, rest: string, args: Args, room: nat)
    requires Plain(plain) && Breaks(rest)
    ensures var t := Text(args(0).num % 0x1_0000_0000_0000_0000, 10, false);
            Output("%ld" + plain + rest, args, room)
            == if |t| <= room then t + Then(plain, rest, After(args, 1), room - |t|)
               else Then("d" + plain, rest, After(args, 1), room)
  {
    var t := Text(args(0).num % 0x1_0000_0000_0000_0000, 10, false);
    LongPiece(plain + rest, args(0), t);
    assert "%ld" + plain + rest == "%ld" + (plain + rest);
    LongScan(plain, rest, args, room, t);
  }

  lemma LongPiece(s: string, arg: Arg, t: string)
    requires t == Text(arg.num % 0x1_0000_0000_0000_0000, 10, false)
    ensures PieceAt("%ld" + s, 0, arg) == Piece(t, 1, 3, 2, false)
  {
    assert CharAt("%ld" + s, 1) == 'l' && CharAt("%ld" + s, 2) == 'd';
  }

  lemma LongScan(plain: string, rest: string, args: Args, room: nat, t: string)
    requires Plain(plain) && Breaks(rest) && PieceAt("%ld" + plain + rest, 0, args(0)) == Piece(t, 1, 3, 2, false)
    ensures Output("%ld" + plain + rest, args, room)
            == if |t| <= room then t + Then(plain, rest, After(args, 1), room - |t|)
               else Then("d" + plain, rest, After(args, 1), room)
  {
    var fmt := "%ld" + plain + rest;
    var p := Piece(t, 1, 3, 2, false);
    if |t| <= room {
      Hit("%ld", plain, rest, args, room, p);
    } else {
      assert fmt == "%l" + ("d" + plain) + rest;
      Miss("%l", "d" + plain, rest, args, room, p);
    }
  }

  /** The text does not start with a letter that the formatter converts. */
  predicate Unknown(s: string) {
    s == "" || (s[0] !in "cdsxpb" && !(s[0] == 'l' && 1 < |s| && s[1] == 'd'))
  }

  /** Before anything else a percent sign stands for itself and uses no argument. */
  lemma PercentPrints(plain: string, rest: string, args: Args, room: nat)
    requires Plain(plain) && Breaks(rest) && Unknown(plain + rest) && 0 < room
    ensures Output("%" + plain + rest, args, room) == "%" + Then(plain, rest, args, room - 1)
  {
    var fmt := "%" + plain + rest;
    assert fmt == "%" + (plain + rest);
    PercentPiece(plain + rest, args(0));
    Hit("%", plain, rest, args, room, Piece("%", 0, 1, 2, false));
    SameThen(plain, rest, args, room - 1);
  }

  lemma PercentPiece(s: string, arg: Arg)
    requires Unknown(s)
    ensures PieceAt("%" + s, 0, arg) == Piece("%", 0, 1, 2, false)
  {
    var fmt := "%" + s;
    assert CharAt(fmt, 1) == CharAt(s, 0) && CharAt(fmt, 2) == CharAt(s, 1);
  }

  /** Without room for it the percent sign takes the character behind it along. */
  lemma PercentSkips(letter: char, plain: string, rest: string, args: Args)
    requires Plain(plain) && Breaks(rest) && Unknown([letter] + plain + rest)
    ensures Output(['%', letter] + plain + rest, args, 0) == Then(plain, rest, args, 0)
  {
    var fmt := ['%', letter] + plain + rest;
    assert fmt == "%" + ([letter] + plain + rest);
    PercentPiece([letter] + plain + rest, args(0));
    Miss(['%', letter], plain, rest, args, 0, Piece("%", 0, 1, 2, false));
    SameThen(plain, rest, args, 0);
  }

  // ---------------------------------------------------------------------------
  // The whole text

  lemma WholeFits(fmt: string, args: Args, room: nat)
    requires |Whole(fmt, args)| <= room
    ensures Output(fmt, args, room) == Whole(fmt, args)
  {
    OutputIsWhole(fmt, args, room);
  }

  ghost predicate GivesIn(fmt: string, args: Args, text: string, plain: string, rest: string, after: Args, room: nat) {
    |text| <= room ==> Output(fmt, args, room) == text + Then(plain, rest, after, room - |text|)
  }

  /** Where there is room the format prints the text, and then the plain text and the rest. */
  ghost predicate Gives(fmt: string, args: Args, text: string, plain: string, rest: string, after: Args) {
    forall room: nat {:trigger GivesIn(fmt, args, text, plain, rest, after, room)} ::
      GivesIn(fmt, args, text, plain, rest, after, room)
  }

  lemma WholeIs(before: string, dir: string, text: string, plain: string, rest: string, args: Args, after: Args)
    requires Plain(before) && !Marked(before) && Breaks(dir) && dir != ""
    requires Gives(dir + plain + rest, args, text, plain, rest, after)
    ensures Whole(before + (dir + plain + rest), args) == before + text + plain + Whole(rest, after)
  {
    var fmt := dir + plain + rest;
    var room := |before| + |text| + |plain| + |Whole(rest, after)| + |Whole(before + fmt, args)|;
    assert GivesIn(fmt, args, text, plain, rest, after, room - |before|);
    PlainPrints(before, fmt, args, room);
    WholeFits(before + fmt, args, room);
    WholeFits(rest, after, room - |before| - |text| - |plain|);
    assert before + (text + (plain + Whole(rest, after))) == before + text + plain + Whole(rest, after);
  }

  // Between plain text each directive prints its argument, and the rest of the format the arguments behind.

  lemma WholeChar(before: string, plain: string, rest: string, args: Args)
    requires Plain(before) && !Marked(before) && Plain(plain) && Breaks(rest)
    ensures Whole(before + ("%c" + plain + rest), args)
            == before + [(args(0).num % 256) as char] + plain + Whole(rest, After(args, 1))
  {
    var t := [(args(0).num % 256) as char];
    forall room: nat ensures GivesIn("%c" + plain + rest, args, t, plain, rest, After(args, 1), room) {
      CharPrints(plain, rest, args, room);
    }
    WholeIs(before, "%c", t, plain, rest, args, After(args, 1));
  }

  lemma WholeDecimal(before: string, plain: string, rest: string, args: Args)
    requires Plain(before) && !Marked(before) && Plain(plain) && Breaks(rest)
    ensures Whole(before + ("%d" + plain + rest), args)
            == before + Text(args(0).num % 0x1_0000_0000, 10, false) + plain + Whole(rest, After(args, 1))
  {
    var t := Text(args(0).num % 0x1_0000_0000, 10, false);
    forall room: nat ensures GivesIn("%d" + plain + rest, args, t, plain, rest, After(args, 1), room) {
      DecimalPrints(plain, rest, args, room);
    }
    WholeIs(before, "%d", t, plain, rest, args, After(args, 1));
  }

  lemma WholeLong(before: string, plain: string, rest: string, args: Args)
    requires Plain(before) && !Marked(before) && Plain(plain) && Breaks(rest)
    ensures Whole(before + ("%ld" + plain + rest), args)
            == before + Text(args(0).num % 0x1_0000_0000_0000_0000, 10, false) + plain + Whole(rest, After(args, 1))
  {
    var t := Text(args(0).num % 0x1_0000_0000_0000_0000, 10, false);
    forall room: nat ensures GivesIn("%ld" + plain + rest, args, t, plain, rest, After(args, 1), room) {
      LongPrints(plain, rest, args, room);
    }
    WholeIs(before, "%ld", t, plain, rest, args, After(args, 1));
  }

  lemma WholeString(before: string, plain: string, rest: string, args: Args)
    requires Plain(before) && !Marked(before) && Plain(plain) && Breaks(rest)
    ensures Whole(before + ("%s" + plain + rest), args)
            == before + args(0).text + plain + Whole(rest, After(args, 1))
  {
    var t := args(0).text;
    forall room: nat ensures GivesIn("%s" + plain + rest, args, t, plain, rest, After(args, 1), room) {
      StringPrints(plain, rest, args, room);
    }
    WholeIs(before, "%s", t, plain, rest, args, After(args, 1));
  }

  lemma WholeHex(before: string, plain: string, rest: string, args: Args)
    requires Plain(before) && !Marked(before) && Plain(plain) && Breaks(rest)
    ensures Whole(before + ("%x" + plain + rest), args)
            == before + Hex(args(0).num % 0x1_0000_0000, false) + plain + Whole(rest, After(args, 1))
  {
    var t := Hex(args(0).num % 0x1_0000_0000, false);
    forall room: nat ensures GivesIn("%x" + plain + rest, args, t, plain, rest, After(args, 1), room) {
      HexPrints('x', plain, rest, args, room);
    }
    WholeIs(before, "%x", t, plain, rest, args, After(args, 1));
  }

  lemma WholePointer(before: string, plain: string, rest: string, args: Args)
    requires Plain(before) && !Marked(before) && Plain(plain) && Breaks(rest)
    ensures Whole(before + ("%p" + plain + rest), args)
            == before + Hex(args(0).num % 0x1_0000_0000, false) + plain + Whole(rest, After(args, 1))
  {
    var t := Hex(args(0).num % 0x1_0000_0000, false);
    forall room: nat ensures GivesIn("%p" + plain + rest, args, t, plain, rest, After(args, 1), room) {
      HexPrints('p', plain, rest, args, room);
    }
    WholeIs(before, "%p", t, plain, rest, args, After(args, 1));
  }

  lemma WholeBinary(before: string, plain: string, rest: string, args: Args)
    requires Plain(before) && !Marked(before) && Plain(plain) && Breaks(rest)
    ensures Whole(before + ("%b" + plain + rest), args)
            == before + Binary(args(0).num % 0x1_0000_0000) + plain + Whole(rest, After(args, 1))
  {
    var t := Binary(args(0).num % 0x1_0000_0000);
    forall room: nat ensures GivesIn("%b" + plain + rest, args, t, plain, rest, After(args, 1), room) {
      BinaryPrints(plain, rest, args, room);
    }
    WholeIs(before, "%b", t, plain, rest, args, After(args, 1));
  }

  lemma WholePercent(before: string, plain: string, rest: string, args: Args)
    requires Plain(before) && !Marked(before) && Plain(plain) && Breaks(rest) && Unknown(plain + rest)
    ensures Whole(before + ("%" + plain + rest), args) == before + "%" + plain + Whole(rest, args)
  {
    forall room: nat ensures GivesIn("%" + plain + rest, args, "%", plain, rest, args, room) {
      if 0 < room { PercentPrints(plain, rest, args, room); }
    }
    WholeIs(before, "%", "%", plain, rest, args, args);
  }
}
