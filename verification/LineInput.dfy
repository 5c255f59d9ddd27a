/** The client's keyboard input: line-aligned reads into bounded buffers, the validators, and the
    readers that ask again. */
module LineInput {
  import opened CStrings
  import opened Calendar
  import opened Gates
  import MenuFormat

  // ----- Validators -----

  predicate Alnum(c: char) {
    '0' <= c <= '9' || 'a' <= c <= 'z' || 'A' <= c <= 'Z'
  }

  /** Letters and digits, 4 to 16 of them. */
  predicate ValidId(id: Bytes) {
    4 <= |id| <= 16 && forall k :: 0 <= k < |id| ==> Alnum(id[k])
  }

  /** Exactly four digits. */
  predicate ValidPassword(pw: Bytes) {
    |pw| == 4 && forall k :: 0 <= k < 4 ==> '0' <= pw[k] <= '9'
  }

  method IsValidId(id: Bytes) returns (ok: bool)
    ensures ok == ValidId(id)
  {
    if |id| < 4 || |id| > 16 { return false; }
    var i := 0;
    while i < |id|
      invariant 0 <= i <= |id|
      invariant forall k :: 0 <= k < i ==> Alnum(id[k])
    {
      if !Alnum(id[i]) { return false; }
      i := i + 1;
    }
    ok := true;
  }

  method IsValidPassword(pw: Bytes) returns (ok: bool)
    ensures ok == ValidPassword(pw)
  {
    if |pw| != 4 { return false; }
    var i := 0;
    while i < 4
      invariant 0 <= i <= 4
      invariant forall k :: 0 <= k < i ==> '0' <= pw[k] <= '9'
    {
      if !('0' <= pw[i] <= '9') { return false; }
      i := i + 1;
    }
    ok := true;
  }

  // ----- Lines -----

  const NEWLINE := {'\n'}

  /** The bytes before the first newline. */
  function FirstLine(s: Bytes): Bytes {
    s[..Span(s, NEWLINE)]
  }

  /** What is left once the first line and its newline are gone. */
  function AfterLine(s: Bytes): (r: Bytes)
    ensures s != [] ==> |r| < |s|
  {
    var n := Span(s, NEWLINE);
    if n < |s| then s[n + 1..] else []
  }

  lemma AfterLineStep(s: Bytes)
    requires s != []
    ensures AfterLine(s) == if s[0] == '\n' then s[1..] else AfterLine(s[1..])
  {
    if s[0] != '\n' && Span(s, NEWLINE) < |s| {
      assert s[Span(s, NEWLINE) + 1..] == s[1..][Span(s[1..], NEWLINE) + 1..];
    }
  }

  lemma AfterPart(s: Bytes, n: nat)
    requires n <= Span(s, NEWLINE)
    ensures AfterLine(s[n..]) == AfterLine(s)
  {
    var m := Span(s, NEWLINE);
    SpanIs(s[n..], m - n, NEWLINE);
    if m < |s| { assert s[n..][m - n + 1..] == s[m + 1..]; }
  }

  lemma LineThenRest(line: Bytes, rest: Bytes)
    requires Free(line, NEWLINE)
    ensures FirstLine(line + "\n" + rest) == line && AfterLine(line + "\n" + rest) == rest
  {
    SpanIs(line + "\n" + rest, |line|, NEWLINE);
  }

  /** What successive safe_input calls with these buffer sizes read. */
  function Reads(s: Bytes, sizes: seq<nat>): seq<Bytes>
    requires forall k :: 0 <= k < |sizes| ==> sizes[k] >= 1
    decreases |sizes|
  {
    if sizes == [] then [] else [Clip(FirstLine(s), sizes[0])] + Reads(AfterLine(s), sizes[1..])
  }

  function Typed(lines: seq<Bytes>): Bytes
    decreases |lines|
  {
    if lines == [] then [] else lines[0] + "\n" + Typed(lines[1..])
  }

  /** Call k reads line k, however long the earlier lines were: buffer sizes never shift the lines. */
  lemma {:induction false} ReadsStayAligned(lines: seq<Bytes>, sizes: seq<nat>)
    requires |sizes| <= |lines| && forall k :: 0 <= k < |lines| ==> Free(lines[k], NEWLINE)
    requires forall k :: 0 <= k < |sizes| ==> sizes[k] >= 1
    ensures |Reads(Typed(lines), sizes)| == |sizes|
    ensures forall k :: 0 <= k < |sizes| ==> Reads(Typed(lines), sizes)[k] == Clip(lines[k], sizes[k])
    decreases |sizes|
  {
    if sizes != [] {
      var lines', sizes' := lines[1..], sizes[1..];
      LineThenRest(lines[0], Typed(lines'));
      ReadsStayAligned(lines', sizes');
      assert forall k :: 0 < k < |sizes| ==> lines[k] == lines'[k - 1] && sizes[k] == sizes'[k - 1];
      assert Reads(Typed(lines), sizes) == [Clip(lines[0], sizes[0])] + Reads(Typed(lines'), sizes');
    }
  }

  // ----- Asking again -----

  /** Some line, cut to the buffer, is valid. */
  predicate HasValid(s: Bytes, size: nat, valid: Bytes -> bool)
    requires size >= 1
    decreases |s|
  {
    s != [] && (valid(Clip(FirstLine(s), size)) || HasValid(AfterLine(s), size, valid))
  }

  /** The first valid reading and what is left after its line. */
  function FirstValid(s: Bytes, size: nat, valid: Bytes -> bool): (Bytes, Bytes)
    requires size >= 1 && HasValid(s, size, valid)
    decreases |s|
  {
    var text := Clip(FirstLine(s), size);
    if valid(text) then (text, AfterLine(s)) else FirstValid(AfterLine(s), size, valid)
  }

  predicate HasValidLine(s: Bytes, valid: Bytes -> bool)
    decreases |s|
  {
    s != [] && (valid(FirstLine(s)) || HasValidLine(AfterLine(s), valid))
  }

  /** The first line that is itself valid. */
  function FirstValidLine(s: Bytes, valid: Bytes -> bool): (Bytes, Bytes)
    requires HasValidLine(s, valid)
    decreases |s|
  {
    if valid(FirstLine(s)) then (FirstLine(s), AfterLine(s)) else FirstValidLine(AfterLine(s), valid)
  }

  /** When valid texts leave a byte of the buffer to spare, cutting never makes or unmakes one: the reader
      returns the first line that is itself valid. */
  lemma {:induction false} ReaderTakesValidLines(s: Bytes, size: nat, valid: Bytes -> bool)
    requires size >= 1 && forall x :: valid(x) ==> |x| + 1 < size
    ensures HasValid(s, size, valid) <==> HasValidLine(s, valid)
    ensures HasValidLine(s, valid) ==> FirstValid(s, size, valid) == FirstValidLine(s, valid)
    decreases |s|
  {
    if s != [] {
      var line := FirstLine(s);
      assert valid(Clip(line, size)) <==> valid(line) by {
        if |line| >= size { assert |Clip(line, size)| + 1 == size; }
      }
      ReaderTakesValidLines(AfterLine(s), size, valid);
    }
  }

  /** Over typed lines: the reading of the first line that is valid when cut to the buffer, with every line
      after it still to come. */
  lemma {:induction false} ReaderOverLines(lines: seq<Bytes>, size: nat, valid: Bytes -> bool, j: nat)
    requires size >= 1 && j < |lines| && forall k :: 0 <= k < |lines| ==> Free(lines[k], NEWLINE)
    requires valid(Clip(lines[j], size)) && forall k :: 0 <= k < j ==> !valid(Clip(lines[k], size))
    ensures HasValid(Typed(lines), size, valid)
    ensures FirstValid(Typed(lines), size, valid) == (Clip(lines[j], size), Typed(lines[j + 1..]))
    decreases |lines|
  {
    LineThenRest(lines[0], Typed(lines[1..]));
    assert Typed(lines) == lines[0] + "\n" + Typed(lines[1..]) != [];
    if j > 0 {
      ReaderOverLines(lines[1..], size, valid, j - 1);
      assert lines[1..][j..] == lines[j + 1..];
    }
  }

  /** So it is for ids and passwords in their buffers of 20, and for office names shorter than 49 bytes
      (the source's are at most 30) in theirs of 50. */
  lemma CallSites(s: Bytes, offices: set<Bytes>)
    requires forall name :: name in offices ==> |name| < 49
    ensures HasValidLine(s, ValidId) ==>
            HasValid(s, 20, ValidId) && FirstValid(s, 20, ValidId) == FirstValidLine(s, ValidId)
    ensures HasValidLine(s, ValidPassword) ==>
            HasValid(s, 20, ValidPassword) && FirstValid(s, 20, ValidPassword) == FirstValidLine(s, ValidPassword)
    ensures var known := x => x in offices;
            HasValidLine(s, known) ==> HasValid(s, 50, known) && FirstValid(s, 50, known) == FirstValidLine(s, known)
  {
    ReaderTakesValidLines(s, 20, ValidId);
    ReaderTakesValidLines(s, 20, ValidPassword);
    ReaderTakesValidLines(s, 50, x => x in offices);
  }

  /** A date buffer of nine bytes has none to spare: it accepts exactly the lines whose first eight bytes
      are a date, so longer lines too. */
  lemma DateReaderAccepts(line: Bytes)
    ensures ValidDate(Clip(line, 9)) <==> |line| >= 8 && ValidDate(line[..8])
    ensures ValidDate(Clip(line, 9)) && !ValidDate(line) <==> |line| > 8 && ValidDate(line[..8])
  {
    if |line| == 8 { assert line[..8] == line; }
  }

  /** A nine-digit line taken for a date. */
  lemma NineDigitsAt()
    ensures ValidDate(Clip("202401259", 9)) && !ValidDate("202401259")
  {
    assert Clip("202401259", 9) == "20240125";
    DateAt("20240125", Date(2024, 1, 25));
  }

  // ----- Reads that leave the rest of the line -----

  /** fgets cut at its newline, as the login menu reads: the text, and what is left. */
  function PlainRead(s: Bytes, size: nat): (Bytes, Bytes)
    requires size >= 1
  {
    var n := Span(s, NEWLINE);
    if n < |s| && n + 1 < size then (s[..n], s[n + 1..])
    else if n < size then (s[..n], s[n..])
    else (s[..size - 1], s[size - 1..])
  }

  function LeftAfter(s: Bytes, sizes: seq<nat>): Bytes
    requires forall k :: 0 <= k < |sizes| ==> sizes[k] >= 1
    decreases |sizes|
  {
    if sizes == [] then s else LeftAfter(PlainRead(s, sizes[0]).1, sizes[1..])
  }

  function Newlines(s: Bytes): nat {
    if s == [] then 0 else (if s[0] == '\n' then 1 else 0) + Newlines(s[1..])
  }

  lemma {:induction false} NewlinesSplit(a: Bytes, b: Bytes)
    ensures Newlines(a + b) == Newlines(a) + Newlines(b)
  {
    if a == [] {
      assert a + b == b;
    } else {
      assert (a + b)[1..] == a[1..] + b;
      NewlinesSplit(a[1..], b);
    }
  }

  lemma {:induction false} NoNewlines(s: Bytes)
    requires Free(s, NEWLINE)
    ensures Newlines(s) == 0
  {
    if s != [] { NoNewlines(s[1..]); }
  }

  /** One such read uses up a newline, or none when the line does not fit. */
  lemma PlainReadNewlines(s: Bytes, size: nat)
    requires size >= 1
    ensures Newlines(PlainRead(s, size).1) ==
            Newlines(s) - (if Span(s, NEWLINE) < |s| && Span(s, NEWLINE) + 1 < size then 1 else 0)
  {
    var n := Span(s, NEWLINE);
    var m := if n < size then n else size - 1;
    FreeHead(s, m);
    if n < |s| && n + 1 < size { FirstNewline(s[n..], s[n + 1..]); }
  }

  lemma FreeHead(s: Bytes, m: nat)
    requires m <= |s| && Free(s[..m], NEWLINE)
    ensures Newlines(s[m..]) == Newlines(s)
  {
    assert s == s[..m] + s[m..];
    NewlinesSplit(s[..m], s[m..]);
    NoNewlines(s[..m]);
  }

  lemma FirstNewline(s: Bytes, rest: Bytes)
    requires s != [] && s[0] == '\n' && s[1..] == rest
    ensures Newlines(s) == 1 + Newlines(rest)
  {
  }

  lemma {:induction false} LeftNewlines(s: Bytes, sizes: seq<nat>)
    requires forall k :: 0 <= k < |sizes| ==> sizes[k] >= 1
    ensures Newlines(LeftAfter(s, sizes)) + |sizes| >= Newlines(s)
    decreases |sizes|
  {
    if sizes != [] {
      PlainReadNewlines(s, sizes[0]);
      LeftNewlines(PlainRead(s, sizes[0]).1, sizes[1..]);
    }
  }

  lemma {:induction false} TypedNewlines(lines: seq<Bytes>)
    requires forall k :: 0 <= k < |lines| ==> Free(lines[k], NEWLINE)
    ensures Newlines(Typed(lines)) == |lines|
    decreases |lines|
  {
    if lines != [] {
      TypedNewlines(lines[1..]);
      NoNewlines(lines[0]);
      NewlinesSplit(lines[0], "\n" + Typed(lines[1..]));
      assert lines[0] + "\n" + Typed(lines[1..]) == lines[0] + ("\n" + Typed(lines[1..]));
      assert ("\n" + Typed(lines[1..]))[1..] == Typed(lines[1..]);
    }
  }

  /** Such reads leave exactly the later lines if and only if every line they met fitted its buffer with
      its newline; one that did not shifts every read after it. */
  lemma {:induction false} PlainReadsAligned(lines: seq<Bytes>, sizes: seq<nat>)
    requires |sizes| <= |lines| && forall k :: 0 <= k < |lines| ==> Free(lines[k], NEWLINE)
    requires forall k :: 0 <= k < |sizes| ==> sizes[k] >= 1
    ensures LeftAfter(Typed(lines), sizes) == Typed(lines[|sizes|..]) <==> AllFit(lines, sizes)
    decreases |sizes|
  {
    if sizes == [] {
      assert lines[0..] == lines;
    } else if |lines[0]| + 1 < sizes[0] {
      PlainReadOfLine(lines[0], Typed(lines[1..]), sizes[0]);
      PlainReadsAligned(lines[1..], sizes[1..]);
      assert lines[1..][|sizes| - 1..] == lines[|sizes|..];
      AllFitSplit(lines, sizes);
    } else {
      FirstLineTooLong(lines, sizes);
      assert !AllFit(lines, sizes);
    }
  }

  lemma FirstLineTooLong(lines: seq<Bytes>, sizes: seq<nat>)
    requires 0 < |sizes| <= |lines| && forall k :: 0 <= k < |lines| ==> Free(lines[k], NEWLINE)
    requires forall k :: 0 <= k < |sizes| ==> sizes[k] >= 1
    requires |lines[0]| + 1 >= sizes[0]
    ensures LeftAfter(Typed(lines), sizes) != Typed(lines[|sizes|..])
  {
    PlainReadOfLine(lines[0], Typed(lines[1..]), sizes[0]);
    LeftNewlines(PlainRead(Typed(lines), sizes[0]).1, sizes[1..]);
    TypedNewlines(lines[1..]);
    TypedNewlines(lines[|sizes|..]);
  }

  /** A line of 20 bytes in a buffer of 20: the next read gets its last byte, not the next line. */
  lemma LongLineAt()
    ensures var typed := Typed(["aaaaaaaaaaaaaaaaaaab", "1234"]);
            PlainRead(PlainRead(typed, 20).1, 20) == ("b", "1234\n")
  {
    var line, next := "aaaaaaaaaaaaaaaaaaab", "1234\n";
    assert [line, "1234"][1..] == ["1234"] && ["1234"][1..] == [];
    assert Typed(["1234"]) == "1234" + "\n" + [] == next;
    var typed := line + "\n" + next;
    assert Typed([line, "1234"]) == typed;
    TwentyBytes();
    SpanIs(typed, 20, NEWLINE);
    assert typed[19..] == "b" + "\n" + next;
    LineThenRest("b", next);
    SpanIs("b" + "\n" + next, 1, NEWLINE);
  }

  lemma TwentyBytes()
    ensures |"aaaaaaaaaaaaaaaaaaab"| == 20 && "aaaaaaaaaaaaaaaaaaab"[19] == 'b' && Free("aaaaaaaaaaaaaaaaaaab", NEWLINE)
  {
  }

  /** The first lines, with their newlines, all fit their buffers. */
  predicate AllFit(lines: seq<Bytes>, sizes: seq<nat>)
    requires |sizes| <= |lines|
  {
    forall k :: 0 <= k < |sizes| ==> |lines[k]| + 1 < sizes[k]
  }

  lemma AllFitSplit(lines: seq<Bytes>, sizes: seq<nat>)
    requires 0 < |sizes| <= |lines| && |lines[0]| + 1 < sizes[0]
    ensures AllFit(lines, sizes) <==> AllFit(lines[1..], sizes[1..])
  {
    assert forall k :: 0 < k < |sizes| ==> sizes[k] == sizes[1..][k - 1] && lines[k] == lines[1..][k - 1];
  }

  lemma PlainReadOfLine(line: Bytes, rest: Bytes, size: nat)
    requires size >= 1 && Free(line, NEWLINE)
    ensures |line| + 1 < size ==> PlainRead(line + "\n" + rest, size) == (line, rest)
    ensures |line| + 1 >= size ==> Newlines(PlainRead(line + "\n" + rest, size).1) == 1 + Newlines(rest)
  {
    var s := line + "\n" + rest;
    LineThenRest(line, rest);
    SpanIs(s, |line|, NEWLINE);
    PlainReadNewlines(s, size);
    NoNewlines(line);
    NewlinesSplit(line, "\n" + rest);
    assert s == line + ("\n" + rest) && ("\n" + rest)[1..] == rest;
  }

  // ----- stdin -----

  class Stdin {
    var pending: Bytes   // typed and not read yet

    constructor (typed: Bytes)
      ensures pending == typed
    {
      pending := typed;
    }

    /** fgets: at most size - 1 bytes, up to and including a newline; false is NULL. */
    method Fgets(buffer: array<char>, size: nat) returns (got: bool, ghost text: Bytes)
      requires 1 <= size <= buffer.Length && Free(pending, {NUL})
      modifies this, buffer
      ensures got <==> old(pending) != []
      ensures !got ==> pending == [] && buffer[..] == old(buffer[..])
      ensures got ==> MenuFormat.Holds(buffer, text) && text + pending == old(pending)
      ensures got ==> var n := Span(old(pending), NEWLINE);
              |text| == (if n < |old(pending)| && n + 1 <= size - 1 then n + 1 else if n < size then n else size - 1)
    {
      if pending == [] { return false, []; }
      ghost var all := pending;
      var i := 0;
      var ended := false;
      while i < size - 1 && !ended && pending != []
        invariant 0 <= i < size && i <= |all| && pending == all[i..] && buffer[..i] == all[..i]
        invariant ended ==> 0 < i && i == Span(all, NEWLINE) + 1
        invariant !ended ==> i <= Span(all, NEWLINE)
        decreases size - i
      {
        buffer[i] := pending[0];
        ended := pending[0] == '\n';
        pending := pending[1..];
        i := i + 1;
      }
      buffer[i] := NUL;
      got, text := true, all[..i];
    }

    /** fgets and buffer[strcspn(buffer, "\n")] = 0. At end of input the buffer is cut as it was. */
    method PlainInput(buffer: array<char>, size: nat)
      requires 1 <= size <= buffer.Length && Free(pending, {NUL}) && (pending == [] ==> NUL in buffer[..])
      modifies this, buffer
      ensures old(pending) != [] ==>
                MenuFormat.Holds(buffer, PlainRead(old(pending), size).0) && pending == PlainRead(old(pending), size).1
      ensures old(pending) == [] ==> MenuFormat.Holds(buffer, FirstLine(CStr(old(buffer[..])))) && pending == []
    {
      ghost var before := buffer[..];
      var got, text := Fgets(buffer, size);
      if !got {
        text := CStr(before);
        assert MenuFormat.Holds(buffer, text);
      }
      CutAtNewline(buffer, text);
    }

    static method CutAtNewline(buffer: array<char>, ghost text: Bytes)
      requires MenuFormat.Holds(buffer, text)
      modifies buffer
      ensures MenuFormat.Holds(buffer, FirstLine(text))
    {
      assert forall k :: 0 <= k < |text| ==> buffer[k] == buffer[..|text|][k] == text[k];
      var i := 0;
      while buffer[i] != '\n' && buffer[i] != NUL
        invariant 0 <= i <= |text| && Free(text[..i], NEWLINE)
        decreases |text| - i
      {
        i := i + 1;
      }
      SpanIs(text, i, NEWLINE);
      buffer[i] := NUL;
      assert buffer[..i] == text[..i];
    }

    /** clear_input_buffer: the rest of the line and its newline. */
    method ClearInputBuffer()
      modifies this
      ensures pending == AfterLine(old(pending))
    {
      ghost var all := pending;
      var c := 'x';
      while c != '\n' && pending != []
        invariant AfterLine(all) == if c == '\n' then pending else AfterLine(pending)
        decreases |pending|
      {
        AfterLineStep(pending);
        c := pending[0];
        pending := pending[1..];
      }
    }

    /** safe_input: exactly one line is consumed, and its first size - 1 bytes are in the buffer. */
    method SafeInput(buffer: array<char>, size: nat)
      requires 1 <= size <= buffer.Length && Free(pending, {NUL})
      modifies this, buffer
      ensures old(pending) == [] ==> pending == [] && buffer[..] == old(buffer[..])
      ensures old(pending) != [] ==>
              MenuFormat.Holds(buffer, Clip(FirstLine(old(pending)), size)) && pending == AfterLine(old(pending))
    {
      ghost var all := pending;
      var got, text := Fgets(buffer, size);
      if got {
        ghost var n := Span(all, NEWLINE);
        assert text == all[..|text|] && pending == all[|text|..];
        var len := MenuFormat.StrLen(buffer, 0, |text|);
        assert len > 0 ==> buffer[len - 1] == buffer[..|text|][len - 1] == text[len - 1] == all[len - 1];
        if len > 0 && buffer[len - 1] == '\n' {
          buffer[len - 1] := NUL;
          assert buffer[..len - 1] == text[..len - 1] == all[..n];
        } else {
          AfterPart(all, len);
          ClearInputBuffer();
        }
      }
    }

    /** get_id_input, get_password_input and get_edu_office_input, which differ in their check. Some line
        must be valid, or the loop would never end. */
    method AskUntilValid(buffer: array<char>, size: nat, valid: Bytes -> bool)
      requires 1 <= size <= buffer.Length && Free(pending, {NUL}) && HasValid(pending, size, valid)
      modifies this, buffer
      ensures var (text, rest) := FirstValid(old(pending), size, valid);
              MenuFormat.Holds(buffer, text) && pending == rest
    {
      while true
        invariant Free(pending, {NUL}) && HasValid(pending, size, valid)
        invariant FirstValid(pending, size, valid) == FirstValid(old(pending), size, valid)
        decreases |pending|
      {
        var text := Ask(buffer, size);
        if valid(text) { return; }
      }
    }

    method Ask(buffer: array<char>, size: nat) returns (text: Bytes)
      requires 1 <= size <= buffer.Length && Free(pending, {NUL}) && pending != []
      modifies this, buffer
      ensures text == Clip(FirstLine(old(pending)), size) && MenuFormat.Holds(buffer, text)
      ensures pending == AfterLine(old(pending)) && Free(pending, {NUL})
    {
      ghost var line := Clip(FirstLine(pending), size);
      SafeInput(buffer, size);
      text := StringAt(buffer, 0, line);
    }

    /** What safe_input leaves in a buffer holding `before`: at end of input, what was there. */
    static function InBuffer(before: Bytes, pending: Bytes, size: nat): Bytes
      requires size >= 1
    {
      if pending == [] then CStr(before) else Clip(FirstLine(pending), size)
    }

    /** get_date_input. At end of input it checks what the buffer held before, a C string or not C at all. */
    method GetDateInput(date: array<char>) returns (ok: bool)
      requires date.Length == 9 && Free(pending, {NUL}) && (pending == [] ==> NUL in date[..])
      modifies this, date
      ensures pending == AfterLine(old(pending))
      ensures MenuFormat.Holds(date, InBuffer(old(date[..]), old(pending), 9))
      ensures ok <==> ValidDate(InBuffer(old(date[..]), old(pending), 9))
    {
      ghost var line := InBuffer(date[..], pending, 9);
      SafeInput(date, 9);
      assert MenuFormat.Holds(date, line);
      var text := StringAt(date, 0, line);
      ok := ValidateDateFormat(text);
      ValidDateNames(text);
    }

    /** get_period_input: the second date is asked for only after a valid first one. */
    method GetPeriodInput(start: array<char>, end: array<char>) returns (ok: bool, ghost s: Bytes, ghost e: Bytes)
      requires start.Length == end.Length == 9 && start != end && Free(pending, {NUL})
      requires (pending == [] ==> NUL in start[..]) && (AfterLine(pending) == [] ==> NUL in end[..])
      modifies this, start, end
      ensures s == InBuffer(old(start[..]), old(pending), 9)
      ensures !ValidDate(s) ==> !ok && pending == AfterLine(old(pending))
      ensures ValidDate(s) ==>
                && e == InBuffer(old(end[..]), AfterLine(old(pending)), 9)
                && pending == AfterLine(AfterLine(old(pending)))
                && (ok <==> ClientAccepts(s, e))
      ensures ok ==> MenuFormat.Holds(start, s) && MenuFormat.Holds(end, e)
    {
      s, e := InBuffer(start[..], pending, 9), [];
      ok := GetDateInput(start);
      if !ok { return; }
      e := InBuffer(end[..], pending, 9);
      ok := GetDateInput(end);
      if !ok { return; }
      var first := StringAt(start, 0, s);
      var last := StringAt(end, 0, e);
      if StrCmp(first, last) > 0 { return false, s, e; }
      var from, to := ParseDate(first), ParseDate(last);
      var days1 := from.year * 365 + from.month * 30 + from.day;
      var days2 := to.year * 365 + to.month * 30 + to.day;
      ok := days2 - days1 <= 6;
    }
  }
}
