/**
  The file viewer (linux/tools/Access_Physical_Memory/fileview.cpp): moving a window of 256 bytes over a file by
  keys, and filling it from the memory device. File sizes stay so far below 2^63 that no sum overflows.
 */
module FileView {
  import opened Bits
  import opened Dram

  const BUFWIDE: nat := 16
  const BUFSIZE: nat := 256
  const INCMIN: nat := 0x100
  const INCMAX: nat := 0x10_0000_0000

  /** Seek carries the number typed, which strtoull lets be negative. */
  datatype Key =
    | Home | End | LineDown | LineUp | PageDown | PageUp | Right | Left | Format(size: nat) | Seek(address: int)
    | Quit | Other

  datatype View = View(position: int, pageincr: int, format: nat, done: bool)

  const FIRST_VIEW := View(0, INCMIN, 1, false)

  /** x & ~0xF */
  function Paragraph(x: int): int {
    x - x % BUFWIDE
  }

  function PosMax(filesize: nat): nat {
    if filesize < 241 then 0 else Paragraph(filesize - 241)
  }

  /** The bounds restored at the top of the main loop. */
  function Restored(pageincr: int): int {
    if pageincr == 0 then INCMAX
    else if pageincr < INCMIN then INCMIN
    else if pageincr > INCMAX then INCMAX
    else pageincr
  }

  function Clamped(position: int, posmax: int): int {
    var p := if position < 0 then 0 else position;
    if p > posmax then posmax else p
  }

  /** The switch over the key. */
  function Acted(w: View, filesize: nat, key: Key): View {
    match key
    case Home => w.(position := 0)
    case End => w.(position := PosMax(filesize))
    case LineDown => w.(position := w.position + BUFWIDE)
    case LineUp => w.(position := w.position - BUFWIDE)
    case PageDown => w.(position := w.position + w.pageincr)
    case PageUp => w.(position := w.position - w.pageincr)
    case Right => w.(pageincr := w.pageincr / 16)
    case Left => w.(pageincr := w.pageincr * 16)
    case Format(size) => w.(format := size)
    case Seek(address) => w.(position := Paragraph(address))
    case Quit => w.(done := true)
    case Other => w
  }

  /** One turn of the main loop, from the view shown to the next. */
  function Turn(v: View, filesize: nat, key: Key): View {
    var u := Acted(v.(pageincr := Restored(v.pageincr)), filesize, key);
    u.(position := Clamped(u.position, PosMax(filesize)))
  }

  function After(v: View, filesize: nat, keys: seq<Key>): View
    decreases |keys|
  {
    if keys == [] || v.done then v else After(Turn(v, filesize, keys[0]), filesize, keys[1..])
  }

  ghost predicate IsIncrement(x: int) {
    exists k: nat :: k <= 7 && x == Step(k)
  }

  function Step(k: nat): nat {
    INCMIN * Pow16(k)
  }

  /** The position is aligned and in bounds, the page increment in use is 2^(8 + 4k) for some k up to 7, and
      shifting has not run it down to zero, so that it never wraps from least to greatest. */
  ghost predicate InBounds(v: View, filesize: nat) {
    && 0 <= v.position <= PosMax(filesize) && v.position % BUFWIDE == 0
    && v.pageincr > 0 && IsIncrement(Restored(v.pageincr))
  }

  lemma Steps()
    ensures Step(0) == INCMIN && Step(1) == 0x1000 && Step(2) == 0x1_0000 && Step(3) == 0x10_0000
    ensures Step(4) == 0x100_0000 && Step(5) == 0x1000_0000 && Step(6) == 0x1_0000_0000 && Step(7) == INCMAX
  {
    assert Pow16(1) == 16 && Pow16(2) == 0x100 && Pow16(3) == 0x1000 && Pow16(4) == 0x1_0000;
    assert Pow16(5) == 0x10_0000 && Pow16(6) == 0x100_0000 && Pow16(7) == 0x1000_0000;
  }

  lemma ShiftsStayIncrements(x: int)
    requires IsIncrement(x)
    ensures x / 16 > 0 && x * 16 > 0 && Restored(x) == x && x % BUFWIDE == 0
    ensures IsIncrement(Restored(x / 16)) && IsIncrement(Restored(x * 16))
  {
    Steps();
    var k: nat :| k <= 7 && x == Step(k);
    assert Restored(x / 16) == Step(if k == 0 then 0 else k - 1);
    assert Restored(x * 16) == Step(if k == 7 then 7 else k + 1);
  }

  lemma PosMaxIsAligned(filesize: nat)
    ensures PosMax(filesize) % BUFWIDE == 0
  {
  }

  lemma ClampedIsAligned(position: int, posmax: nat)
    requires position % BUFWIDE == 0 && posmax % BUFWIDE == 0
    ensures 0 <= Clamped(position, posmax) <= posmax && Clamped(position, posmax) % BUFWIDE == 0
  {
  }

  lemma TurnStaysInBounds(v: View, filesize: nat, key: Key)
    requires InBounds(v, filesize)
    ensures InBounds(Turn(v, filesize, key), filesize)
  {
    ShiftsStayIncrements(Restored(v.pageincr));
    PosMaxIsAligned(filesize);
    var u := Acted(v.(pageincr := Restored(v.pageincr)), filesize, key);
    ActedIsAligned(v.(pageincr := Restored(v.pageincr)), filesize, key);
    ClampedIsAligned(u.position, PosMax(filesize));
  }

  lemma ActedIsAligned(w: View, filesize: nat, key: Key)
    requires w.position % BUFWIDE == 0 && w.pageincr % BUFWIDE == 0
    ensures Acted(w, filesize, key).position % BUFWIDE == 0
  {
    PosMaxIsAligned(filesize);
  }

  /** Whatever keys are pressed. */
  lemma {:induction false} StaysInBounds(v: View, filesize: nat, keys: seq<Key>)
    requires InBounds(v, filesize)
    ensures InBounds(After(v, filesize, keys), filesize)
    decreases |keys|
  {
    if keys != [] && !v.done {
      TurnStaysInBounds(v, filesize, keys[0]);
      StaysInBounds(Turn(v, filesize, keys[0]), filesize, keys[1..]);
    }
  }

  lemma FirstViewIsInBounds(filesize: nat)
    ensures InBounds(FIRST_VIEW, filesize)
  {
    Steps();
  }

  /** The last window is the first aligned one that reaches the end of the file. */
  lemma LastWindow(filesize: nat)
    ensures PosMax(filesize) + BUFSIZE >= filesize
    ensures PosMax(filesize) > 0 ==> PosMax(filesize) - BUFWIDE + BUFSIZE < filesize
  {
  }

  /** Seeking to any offset of the file brings it into the window; seeking elsewhere goes to an end. */
  lemma SeekShows(v: View, filesize: nat, t: int)
    ensures var p := Turn(v, filesize, Seek(t)).position;
            && (0 <= t < filesize ==> p <= t < p + BUFSIZE)
            && (t < 0 ==> p == 0)
            && (t >= filesize ==> p == PosMax(filesize))
  {
    LastWindow(filesize);
  }

  /** Pages turned forward and back show the same window, exactly when the page forward was within bounds. */
  lemma PageThereAndBack(v: View, filesize: nat)
    requires InBounds(v, filesize) && !v.done
    ensures After(v, filesize, [PageDown, PageUp]).position == v.position
            <==> v.position + Restored(v.pageincr) <= PosMax(filesize) || v.position == 0
  {
    var inc := Restored(v.pageincr);
    ShiftsStayIncrements(inc);
    var w := Turn(v, filesize, PageDown);
    assert After(v, filesize, [PageDown, PageUp]) == Turn(w, filesize, PageUp) by {
      assert [PageDown, PageUp][1..] == [PageUp] && [PageUp][1..] == [];
    }
    ThereAndBack(v.position, inc, PosMax(filesize));
  }

  lemma ThereAndBack(p: int, inc: int, posmax: int)
    requires 0 <= p <= posmax && inc > 0
    ensures Clamped(Clamped(p + inc, posmax) - inc, posmax) == p <==> p + inc <= posmax || p == 0
  {
  }

  // What the keys do, in numbers.

  /** Left makes the page increment in use sixteen times as big and Right sixteen times as small, within 0x100 and
      0x1000000000; no other key changes it. */
  lemma KeysScalePages(v: View, filesize: nat, key: Key, k: nat)
    requires k <= 7 && Restored(v.pageincr) == 0x100 * Pow16(k)
    ensures Restored(Turn(v, filesize, key).pageincr) ==
            0x100 * Pow16(match key
                          case Left => if k == 7 then 7 else k + 1
                          case Right => if k == 0 then 0 else k - 1
                          case _ => k)
  {
    Steps();
    assert Step(k) == 0x100 * Pow16(k);
    ShiftsStayIncrements(Step(k));
  }

  /** Where a key takes the window: to an end, sixteen bytes or a page up or down but not beyond the ends, to the line
      of an address, or nowhere. */
  lemma KeysMove(v: View, filesize: nat, key: Key)
    requires InBounds(v, filesize)
    ensures var p, end, inc := Turn(v, filesize, key).position, PosMax(filesize), Restored(v.pageincr);
            match key
            case Home => p == 0
            case End => p == end
            case LineDown => p == if v.position + 16 <= end then v.position + 16 else end
            case LineUp => p == if v.position >= 16 then v.position - 16 else 0
            case PageDown => p == if v.position + inc <= end then v.position + inc else end
            case PageUp => p == if v.position >= inc then v.position - inc else 0
            case Seek(a) => p == if a < 0 then 0 else if a <= end then 16 * (a / 16) else end
            case _ => p == v.position
  {
    if key.Seek? && key.address >= 0 {
      LineOf(key.address, PosMax(filesize));
    }
  }

  lemma LineOf(a: nat, end: nat)
    requires end % BUFWIDE == 0
    ensures Paragraph(a) == 16 * (a / 16) && (Paragraph(a) <= end <==> 16 * (a / 16) <= end)
    ensures a > end ==> Clamped(Paragraph(a), end) == end
  {
  }

  /** Quit ends the session and nothing else does; a format key sets the format and nothing else does. */
  lemma KeysSet(v: View, filesize: nat, key: Key)
    ensures Turn(v, filesize, key).done <==> v.done || key == Quit
    ensures Turn(v, filesize, key).format == if key.Format? then key.size else v.format
  {
  }

  /** How far a key moves the window when no end is in the way. */
  function Stride(key: Key, inc: int): int {
    match key
    case LineDown => 16
    case LineUp => -16
    case PageDown => inc
    case PageUp => -inc
    case _ => 0
  }

  /** n times the same of these keys: n strides, or to the end in that direction. */
  lemma {:induction false} Repeated(v: View, filesize: nat, key: Key, n: nat)
    requires InBounds(v, filesize) && !v.done
    requires key == LineDown || key == LineUp || key == PageDown || key == PageUp
    ensures var p, way := After(v, filesize, seq(n, i => key)).position, Stride(key, Restored(v.pageincr)) * n;
            p == if v.position + way < 0 then 0
                 else if v.position + way > PosMax(filesize) then PosMax(filesize)
                 else v.position + way
    decreases n
  {
    var d := Stride(key, Restored(v.pageincr));
    if n > 0 {
      var keys, w := seq(n, i => key), Turn(v, filesize, key);
      assert keys[1..] == seq(n - 1, i => key);
      TurnStaysInBounds(v, filesize, key);
      ShiftsStayIncrements(Restored(v.pageincr));
      KeysMove(v, filesize, key);
      Repeated(w, filesize, key, n - 1);
      SameSign(d, n - 1);
      ClampTwice(v.position, d, d * (n - 1), PosMax(filesize));
    }
  }

  lemma ClampTwice(p: int, d: int, rest: int, end: int)
    requires 0 <= p <= end && (d >= 0 ==> rest >= 0) && (d <= 0 ==> rest <= 0)
    ensures Clamped(Clamped(p + d, end) + rest, end) == Clamped(p + d + rest, end)
  {
  }

  lemma SameSign(d: int, m: nat)
    ensures d * (m + 1) == d + d * m && (d >= 0 ==> d * m >= 0) && (d <= 0 ==> d * m <= 0)
  {
  }

  /** From the first view of a device of a megabyte: the page grows sixteenfold before it is turned. */
  lemma LeftThenPageDown()
    ensures After(FIRST_VIEW, 0x10_0000, [Left, PageDown]).position == 0x1000
    ensures After(FIRST_VIEW, 0x10_0000, [Left, Right, PageDown]).position == 0x100
  {
    var keys := [Left, Right, PageDown];
    assert [Left, PageDown][1..] == [PageDown] && [PageDown][1..] == [];
    assert keys[1..] == [Right, PageDown] && keys[1..][1..] == [PageDown];
  }

  // The window's contents.

  const BLANK: byte := 0xFF

  /** What the buffer holds for a position: the file's bytes, and 0xFF behind its end. */
  ghost function Window(file: seq<byte>, position: int): (w: seq<byte>)
    requires 0 <= position <= |file|
    ensures |w| == BUFSIZE
  {
    seq(BUFSIZE, i requires 0 <= i < BUFSIZE => if position + i < |file| then file[position + i] else BLANK)
  }

  /** In slices: the file from the position on, cut to 256 bytes, and bytes 0xFF to fill them up. */
  lemma WindowInSlices(file: seq<byte>, position: nat)
    requires position <= |file|
    ensures var w, n := Window(file, position), Min(256, |file| - position);
            && |w| == 256 && w[..n] == file[position..position + n]
            && w[n..] == seq(256 - n, i => 0xFF)
  {
  }

  /** Erasing, seeking, and the fill loop over page-limited reads: the whole window is read, whatever page
      boundaries it crosses, in at most two reads that bring anything. */
  method Fill(device: Device, buffer: array<byte>, position: nat) returns (datalen: nat, rounds: nat)
    requires device.Valid() && buffer.Length == BUFSIZE && position <= |device.memory|
    modifies device, buffer
    ensures device.Valid() && buffer[..] == Window(device.memory, position)
    ensures datalen == Min(BUFSIZE, |device.memory| - position) && device.fpos == position + datalen
    ensures rounds <= 2
  {
    for j := 0 to BUFSIZE
      modifies buffer
      invariant forall i | 0 <= i < j :: buffer[i] == BLANK
    {
      buffer[j] := BLANK;
    }
    var location := device.Llseek(position, Set);
    var where, toRead := 0, BUFSIZE;
    rounds := 0;
    while toRead > 0
      invariant device.Valid() && where + toRead == BUFSIZE && device.fpos == position + where
      invariant forall i | 0 <= i < BUFSIZE :: buffer[i] == if i < where then device.memory[position + i] else BLANK
      invariant rounds <= 2 && (rounds == 0 ==> where == 0)
      invariant rounds == 1 && toRead > 0 ==> device.fpos % PAGE_SIZE == 0
      invariant rounds == 2 ==> toRead == 0
      decreases toRead
    {
      var nbytes := device.Read(buffer, where, toRead);
      if nbytes <= 0 {
        break;
      }
      NoSecondBoundary(device.fpos, nbytes);
      toRead := toRead - nbytes;
      where := where + nbytes;
      rounds := rounds + 1;
    }
    datalen := BUFSIZE - toRead;
  }

  /** Two page boundaries are further apart than a window is wide. */
  lemma NoSecondBoundary(pos: nat, n: nat)
    requires n <= pos
    ensures 0 < n < BUFSIZE && pos % PAGE_SIZE == 0 ==> (pos - n) % PAGE_SIZE != 0
  {
  }

  /** What a session shows, window by window. */
  ghost function Shown(v: View, file: seq<byte>, keys: seq<Key>): seq<seq<byte>>
    requires InBounds(v, |file|)
    decreases |keys|
  {
    if keys == [] || v.done then []
    else
      TurnStaysInBounds(v, |file|, keys[0]);
      PositionInFile(v, |file|);
      [Window(file, v.position)] + Shown(Turn(v, |file|, keys[0]), file, keys[1..])
  }

  lemma PositionInFile(v: View, filesize: nat)
    requires InBounds(v, filesize)
    ensures v.position <= filesize
  {
  }

  /** The memory device ends on a page, so on it every window is full. */
  lemma WindowsAreFull(v: View, memory: seq<byte>)
    requires IsMemory(memory) && |memory| > 0 && InBounds(v, |memory|)
    ensures v.position + BUFSIZE <= |memory|
  {
  }

  lemma ShownFirst(v: View, file: seq<byte>, keys: seq<Key>, n: nat)
    requires InBounds(v, |file|) && n < |keys| && !After(v, |file|, keys[..n]).done
    ensures After(v, |file|, keys[..n + 1]) == Turn(After(v, |file|, keys[..n]), |file|, keys[n])
    ensures InBounds(After(v, |file|, keys[..n]), |file|) && After(v, |file|, keys[..n]).position <= |file|
    ensures Shown(v, file, keys[..n + 1])
            == Shown(v, file, keys[..n]) + [Window(file, After(v, |file|, keys[..n]).position)]
    decreases n
  {
    StaysInBounds(v, |file|, keys[..n]);
    PositionInFile(After(v, |file|, keys[..n]), |file|);
    assert keys[..n + 1][1..] == keys[1..][..n];
    if n > 0 {
      assert keys[..n][1..] == keys[1..][..n - 1];
      TurnStaysInBounds(v, |file|, keys[0]);
      ShownFirst(Turn(v, |file|, keys[0]), file, keys[1..], n - 1);
    }
  }

  lemma {:induction false} NothingAfterQuit(v: View, file: seq<byte>, keys: seq<Key>, n: nat)
    requires InBounds(v, |file|) && n <= |keys| && After(v, |file|, keys[..n]).done
    ensures After(v, |file|, keys) == After(v, |file|, keys[..n]) && Shown(v, file, keys) == Shown(v, file, keys[..n])
    decreases n
  {
    if n > 0 && !v.done {
      assert keys[..n][1..] == keys[1..][..n - 1];
      TurnStaysInBounds(v, |file|, keys[0]);
      NothingAfterQuit(Turn(v, |file|, keys[0]), file, keys[1..], n - 1);
    }
  }

  /** The top of the main loop, its switch over the key, and the bounds at its end. */
  method Press(v: View, filesize: nat, posmax: nat, key: Key) returns (w: View)
    requires posmax == PosMax(filesize)
    ensures w == Turn(v, filesize, key)
  {
    var position, pageincr, format, done := v.position, v.pageincr, v.format, v.done;
    if pageincr == 0 {
      pageincr := INCMAX;
    } else if pageincr < INCMIN {
      pageincr := INCMIN;
    } else if pageincr > INCMAX {
      pageincr := INCMAX;
    }
    match key {
      case Home => position := 0;
      case End => position := posmax;
      case LineDown => position := position + BUFWIDE;
      case LineUp => position := position - BUFWIDE;
      case PageDown => position := position + pageincr;
      case PageUp => position := position - pageincr;
      case Right => pageincr := pageincr / 16;
      case Left => pageincr := pageincr * 16;
      case Format(size) => format := size;
      case Seek(address) => position := Paragraph(address);
      case Quit => done := true;
      case Other =>
    }
    if position < 0 {
      position := 0;
    }
    if position > posmax {
      position := posmax;
    }
    w := View(position, pageincr, format, done);
  }

  /** The main loop, until the user quits or the keys end: it shows the windows of the views that the keys
      lead through. */
  method Session(device: Device, buffer: array<byte>, keys: seq<Key>) returns (view: View, ghost shown: seq<seq<byte>>)
    requires device.Valid() && buffer.Length == BUFSIZE
    modifies device, buffer
    ensures view == After(FIRST_VIEW, |device.memory|, keys)
    ensures InBounds(FIRST_VIEW, |device.memory|) && shown == Shown(FIRST_VIEW, device.memory, keys)
  {
    var filesize := device.Llseek(0, Whence.End);
    FirstViewIsInBounds(filesize);
    var posmax := Paragraph(filesize - 241);
    if posmax < 0 {
      posmax := 0;
    }
    view := FIRST_VIEW;
    shown := [];
    var n := 0;
    while n < |keys| && !view.done
      invariant n <= |keys| && device.Valid()
      invariant view == After(FIRST_VIEW, filesize, keys[..n])
      invariant shown == Shown(FIRST_VIEW, device.memory, keys[..n])
    {
      ShownFirst(FIRST_VIEW, device.memory, keys, n);
      var datalen, rounds := Fill(device, buffer, view.position);
      shown := shown + [buffer[..]];
      view := Press(view, filesize, posmax, keys[n]);
      n := n + 1;
    }
    if view.done {
      NothingAfterQuit(FIRST_VIEW, device.memory, keys, n);
    } else {
      assert keys[..n] == keys;
    }
  }
}
