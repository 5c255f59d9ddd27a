/** The menu formatter: an in-place tokenise / cut / trim / append loop over a mutable copy,
    proved against the pure pipeline Items and Bullets. */
module MenuFormat {
  import opened CStrings
  import opened Options

  const MAX_MEAL_LEN := 2000
  const MAX_ENTRY := 512
  const BR := {'<', 'b', 'r', '/', '>'}   // strtok reads "<br/>" as a set of delimiters
  const BULLET: Bytes := "\U{E2}\U{80}\U{A2} "
  const DAILY_HEADER: Bytes :=
    "\n\U{F0}\U{9F}\U{8D}\U{B1} "
    + "\U{EC}\U{98}\U{A4}\U{EB}\U{8A}\U{98}\U{EC}\U{9D}\U{98} \U{EA}\U{B8}\U{89}\U{EC}\U{8B}\U{9D} "
    + "\U{EB}\U{A9}\U{94}\U{EB}\U{89}\U{B4}\n\n"
  const PERIOD_HEADER: Bytes :=
    "\n\U{F0}\U{9F}\U{8D}\U{B1} "
    + "\U{EA}\U{B8}\U{B0}\U{EA}\U{B0}\U{84}\U{EB}\U{B3}\U{84} \U{EA}\U{B8}\U{89}\U{EC}\U{8B}\U{9D} "
    + "\U{EB}\U{A9}\U{94}\U{EB}\U{89}\U{B4}\n\n"
  const CALENDAR: Bytes := "\U{F0}\U{9F}\U{93}\U{85} "
  const YEAR_MARK: Bytes := "\U{EB}\U{85}\U{84} "
  const MONTH_MARK: Bytes := "\U{EC}\U{9B}\U{94} "
  const DAY_MARK: Bytes := "\U{EC}\U{9D}\U{BC}"

  // ----- The pure pipeline -----

  function TrimLeft(s: Bytes): Bytes {
    if s != [] && s[0] == ' ' then TrimLeft(s[1..]) else s
  }

  function TrimRight(s: Bytes): Bytes {
    if s != [] && s[|s| - 1] == ' ' then TrimRight(s[..|s| - 1]) else s
  }

  /** A token cut at its first parenthesis and trimmed of spaces. */
  function Clean(token: Bytes): Bytes {
    TrimRight(TrimLeft(token[..Span(token, {'('})]))
  }

  function CleanAll(tokens: seq<Bytes>): seq<Bytes> {
    if tokens == [] then []
    else if Clean(tokens[0]) == [] then CleanAll(tokens[1..])
    else [Clean(tokens[0])] + CleanAll(tokens[1..])
  }

  function Items(menu: Bytes): seq<Bytes> {
    CleanAll(Tokens(menu, BR))
  }

  function Bullets(items: seq<Bytes>): Bytes {
    if items == [] then [] else BULLET + items[0] + "\n" + Bullets(items[1..])
  }

  function FormatDate(date: Bytes): Bytes
    requires |date| >= 8
  {
    date[..4] + YEAR_MARK + date[4..6] + MONTH_MARK + date[6..8] + DAY_MARK
  }

  function DailyText(date: Bytes, menu: Bytes): Bytes
    requires |date| >= 8
  {
    DAILY_HEADER + CALENDAR + FormatDate(date) + "\n\n" + Bullets(Items(menu))
  }

  datatype Row = Row(date: Bytes, menu: Bytes)

  predicate GoodRow(r: Row) {
    |r.date| >= 8 && Free(r.date, {NUL}) && Free(r.menu, {NUL})
  }

  function DateLine(r: Row): Bytes
    requires GoodRow(r)
  {
    CALENDAR + FormatDate(r.date) + "\n"
  }

  function EntryText(r: Row): Bytes
    requires GoodRow(r)
  {
    DateLine(r) + Bullets(Items(r.menu))
  }

  function Entries(rows: seq<Row>): (es: seq<Bytes>)
    requires forall r :: r in rows ==> GoodRow(r)
    ensures |es| == |rows| && forall k :: 0 <= k < |rows| ==> es[k] == EntryText(rows[k])
  {
    seq(|rows|, k requires 0 <= k < |rows| => EntryText(rows[k]))
  }

  /** A header and every entry in order, each followed by a newline. */
  function Report(header: Bytes, entries: seq<Bytes>): Bytes {
    if entries == [] then header
    else Report(header, entries[..|entries| - 1]) + entries[|entries| - 1] + "\n"
  }

  function PeriodText(rows: seq<Row>): Bytes
    requires forall r :: r in rows ==> GoodRow(r)
  {
    Report(PERIOD_HEADER, Entries(rows))
  }

  /** The report buffer as the code fills it: strncat clips the entry to the room that is left,
      then strcat adds a newline; None once that newline (or an entry) has no room. */
  function Accumulate(header: Bytes, entries: seq<Bytes>): Option<Bytes> {
    if entries == [] then (if |header| < MAX_MEAL_LEN then Some(header) else None) else
      match Accumulate(header, entries[..|entries| - 1])
      case None => None
      case Some(text) => Extend(text, entries[|entries| - 1])
  }

  function Extend(text: Bytes, entry: Bytes): Option<Bytes> {
    var text' := Clip(text + entry, MAX_MEAL_LEN);
    if |entry| < MAX_ENTRY && |text'| + 1 < MAX_MEAL_LEN then Some(text' + "\n") else None
  }

  // ----- strings in arrays -----

  /** `a` holds the C string `text`. */
  ghost predicate Holds(a: array<char>, text: Bytes)
    reads a
  {
    |text| < a.Length && a[..|text|] == text && a[|text|] == NUL && Free(text, {NUL})
  }

  method StrDup(s: Bytes) returns (a: array<char>)
    requires Free(s, {NUL})
    ensures fresh(a) && a.Length == |s| + 1 && Holds(a, s)
  {
    a := new char[|s| + 1](i requires 0 <= i => if i < |s| then s[i] else NUL);
  }

  method StrLen(a: array<char>, from: nat, ghost end: nat) returns (n: nat)
    requires from <= end < a.Length && a[end] == NUL && Free(a[from..end], {NUL})
    ensures from + n == end
  {
    n := 0;
    assert forall k :: from <= k < end ==> a[k] == a[from..end][k - from];
    while a[from + n] != NUL
      invariant from + n <= end
      decreases end - n
    {
      n := n + 1;
    }
  }

  method StrCat(dst: array<char>, ghost text: Bytes, s: Bytes)
    requires Holds(dst, text) && Free(s, {NUL}) && |text| + |s| < dst.Length
    modifies dst
    ensures Holds(dst, text + s)
  {
    var n := StrLen(dst, 0, |text|);
    var i := 0;
    while i < |s|
      invariant 0 <= i <= |s|
      invariant dst[..n + i] == text + s[..i]
    {
      dst[n + i] := s[i];
      i := i + 1;
    }
    dst[n + i] := NUL;
    assert s[..i] == s;
  }

  /** strncpy of at most `n` bytes: the text, then NUL padding; the byte after them is already NUL. */
  method StrNCpy(dst: array<char>, src: array<char>, ghost text: Bytes, n: nat)
    requires dst != src && Holds(src, text) && |text| <= n < dst.Length && dst[n] == NUL
    modifies dst
    ensures Holds(dst, text)
  {
    var i := 0;
    var ended := false;
    while i < n
      invariant 0 <= i <= n && dst[n] == NUL
      invariant !ended ==> i <= |text| && dst[..i] == text[..i]
      invariant ended ==> i > |text| && dst[..|text|] == text && dst[|text|] == NUL
    {
      if !ended {
        if i < |text| { assert src[i] == src[..|text|][i]; }
        dst[i] := src[i];
        ended := src[i] == NUL;
      } else {
        dst[i] := NUL;
      }
      i := i + 1;
    }
  }

  // ----- The in-place loop -----

  /** Cut and trim the token at `start`..`stop` where it lies; only bytes of that token change. */
  method CleanInPlace(buf: array<char>, start: nat, ghost stop: nat) returns (item: nat, ghost end: nat)
    requires start < stop < buf.Length && buf[stop] == NUL && Free(buf[start..stop], {NUL})
    modifies buf
    ensures start <= item <= end <= stop && buf[end] == NUL
    ensures buf[item..end] == Clean(old(buf[start..stop]))
    ensures Free(buf[item..end], {NUL})
    ensures forall k :: 0 <= k < buf.Length && (k < start || k >= stop) ==> buf[k] == old(buf[k])
  {
    var cut := CutAtParen(buf, start, stop);
    item := SkipSpaces(buf, start, cut);
    end := TrimSpaces(buf, item, cut);
  }

  method CutAtParen(buf: array<char>, start: nat, ghost stop: nat) returns (ghost cut: nat)
    requires start < stop < buf.Length && buf[stop] == NUL && Free(buf[start..stop], {NUL})
    modifies buf
    ensures start <= cut <= stop && buf[cut] == NUL
    ensures buf[start..cut] == old(buf[start..stop])[..Span(old(buf[start..stop]), {'('})]
    ensures Free(buf[start..cut], {NUL})
    ensures forall k :: 0 <= k < buf.Length && k != cut ==> buf[k] == old(buf[k])
    ensures cut == stop ==> buf[cut] == old(buf[cut])
  {
    ghost var token := buf[start..stop];
    var paren := start;
    while buf[paren] != NUL && buf[paren] != '('
      invariant start <= paren <= stop
      invariant forall k :: start <= k < paren ==> buf[k] != '('
      decreases stop - paren
    {
      paren := paren + 1;
    }
    assert forall k :: start <= k < stop ==> buf[k] == token[k - start];
    SpanIs(token, paren - start, {'('});
    if buf[paren] == '(' {
      buf[paren] := NUL;
    }
    cut := paren;
    assert buf[start..cut] == token[..paren - start];
  }

  method SkipSpaces(buf: array<char>, start: nat, ghost cut: nat) returns (item: nat)
    requires start <= cut < buf.Length && buf[cut] == NUL && Free(buf[start..cut], {NUL})
    ensures start <= item <= cut && buf[item] != ' '
    ensures buf[item..cut] == TrimLeft(buf[start..cut])
    ensures Free(buf[item..cut], {NUL})
  {
    item := start;
    while buf[item] == ' '
      invariant start <= item <= cut
      invariant TrimLeft(buf[item..cut]) == TrimLeft(buf[start..cut])
      decreases cut - item
    {
      assert buf[item..cut][1..] == buf[item + 1..cut];
      item := item + 1;
    }
    assert forall k :: item <= k < cut ==> buf[k] == buf[start..cut][k - start];
  }

  /** The trailing-space loop; `end` is where the text stops, one past the C pointer of that name. */
  method TrimSpaces(buf: array<char>, item: nat, ghost cut: nat) returns (ghost end: nat)
    requires item <= cut < buf.Length && buf[cut] == NUL && Free(buf[item..cut], {NUL})
    requires buf[item] != ' '
    modifies buf
    ensures item <= end <= cut && buf[end] == NUL
    ensures buf[item..end] == TrimRight(old(buf[item..cut]))
    ensures Free(buf[item..end], {NUL})
    ensures forall k :: 0 <= k < buf.Length && (k < end || k >= cut) ==> buf[k] == old(buf[k])
  {
    var len := StrLen(buf, item, cut);
    var last := item + len - 1;
    ghost var all := buf[item..cut];
    assert all[..last + 1 - item] == all;
    while last > item && buf[last] == ' '
      invariant item - 1 <= last < cut
      invariant buf[last + 1] == NUL
      invariant forall k :: 0 <= k < buf.Length && (k <= last || k >= cut) ==> buf[k] == old(buf[k])
      invariant last >= item || last + 1 == cut
      invariant TrimRight(all[..last + 1 - item]) == TrimRight(all)
    {
      var shorter := all[..last + 1 - item];
      assert shorter[..|shorter| - 1] == all[..last - item];
      buf[last] := NUL;
      last := last - 1;
    }
    end := last + 1;
    assert buf[item..end] == all[..end - item];
    if item < end { assert all[..end - item][end - item - 1] == buf[last]; }
  }

  function BulletFor(token: Bytes): Bytes {
    if Clean(token) == [] then [] else BULLET + Clean(token) + "\n"
  }

  /** strtok has just handed out `token`, which lies at `item`..`stop` of its buffer. */
  ghost predicate At(tok: Strtok, item: nat, stop: nat, token: Bytes)
    reads tok, tok.buf
  {
    tok.Valid() && item < stop <= tok.next && tok.buf[stop] == NUL && (stop < tok.next || stop == tok.end) &&
    tok.buf[item..stop] == token && Free(token, {NUL})
  }

  method NextItem(tok: Strtok) returns (found: bool, item: nat, ghost stop: nat, ghost token: Bytes)
    requires tok.Valid()
    modifies tok`next, tok.buf
    ensures tok.Valid() && (found ==> At(tok, item, stop, token))
    ensures Tokens(old(tok.Rest()), BR) == if found then [token] + Tokens(tok.Rest(), BR) else []
    ensures found ==> tok.next > old(tok.next)
  {
    ghost var copy, rest := tok.buf[..], tok.Rest();
    ghost var from := tok.next;
    found, item, stop := tok.Next(BR);
    token := if found then copy[item..stop] else [];
    if found {
      assert tok.buf[item..stop] == token;
      assert forall k :: item <= k < stop ==> copy[k] == rest[k - from];
    }
  }

  /** The loop shared by the daily and the period formatter. */
  method AppendItems(menu: Bytes, out: array<char>, ghost text: Bytes)
    requires Free(menu, {NUL}) && Holds(out, text)
    requires |text| + |Bullets(Items(menu))| < out.Length
    modifies out
    ensures Holds(out, text + Bullets(Items(menu)))
  {
    var temp := StrDup(menu);
    var tok := new Strtok(temp, |menu|);
    assert tok.Rest() == menu;
    ghost var done := text;
    ghost var goal := text + Bullets(Items(menu));
    var found, item, stop, token := NextItem(tok);
    while found
      invariant tok.buf == temp && temp != out && fresh(temp) && fresh(tok)
      invariant tok.Valid() && (found ==> 0 <= item && 0 <= stop && At(tok, item, stop, token))
      invariant Holds(out, done) && |goal| < out.Length
      invariant goal == if found then done + Bullets(CleanAll([token] + Tokens(tok.Rest(), BR))) else done
      decreases found, tok.end - tok.next
    {
      done := Step(tok, item, stop, out, done, token, goal);
      found, item, stop, token := NextItem(tok);
    }
  }

  method Step(tok: Strtok, item: nat, ghost stop: nat, out: array<char>, ghost done: Bytes, ghost token: Bytes,
              ghost goal: Bytes)
      returns (ghost done': Bytes)
    requires At(tok, item, stop, token) && tok.buf != out && Holds(out, done) && |goal| < out.Length
    requires goal == done + Bullets(CleanAll([token] + Tokens(tok.Rest(), BR)))
    modifies tok.buf, out
    ensures tok.Valid() && tok.Rest() == old(tok.Rest()) && Holds(out, done')
    ensures goal == done' + Bullets(CleanAll(Tokens(tok.Rest(), BR)))
  {
    BulletsStep(token, Tokens(tok.Rest(), BR), done);
    done' := done + BulletFor(token);
    ghost var rest := tok.Rest();
    OneItem(tok.buf, item, stop, out, done, token);
    assert tok.buf[tok.next..tok.end] == rest;
  }

  /** The loop body up to the next strtok call: it writes only into the token. */
  method OneItem(buf: array<char>, item: nat, ghost stop: nat, out: array<char>, ghost done: Bytes, ghost token: Bytes)
    requires buf != out && item < stop < buf.Length && buf[stop] == NUL
    requires buf[item..stop] == token && Free(token, {NUL})
    requires Holds(out, done) && |done| + |BulletFor(token)| < out.Length
    modifies buf, out
    ensures forall k :: 0 <= k < buf.Length && (k < item || k >= stop) ==> buf[k] == old(buf[k])
    ensures Holds(out, done + BulletFor(token))
  {
    var at, end := CleanInPlace(buf, item, stop);
    var len := StrLen(buf, at, end);
    if len > 0 {
      assert buf[at..at + len] == Clean(token);
      AppendBullet(out, done, buf[at..at + len]);
    } else {
      assert Clean(token) == [];
      assert done + [] == done;
    }
  }

  method AppendBullet(out: array<char>, ghost text: Bytes, item: Bytes)
    requires Holds(out, text) && Free(item, {NUL}) && |text| + |BULLET| + |item| + 1 < out.Length
    modifies out
    ensures Holds(out, text + (BULLET + item + "\n"))
  {
    StrCat(out, text, BULLET);
    StrCat(out, text + BULLET, item);
    StrCat(out, text + BULLET + item, "\n");
    assert text + BULLET + item + "\n" == text + (BULLET + item + "\n");
  }

  lemma BulletsStep(token: Bytes, rest: seq<Bytes>, done: Bytes)
    ensures done + Bullets(CleanAll([token] + rest)) == done + BulletFor(token) + Bullets(CleanAll(rest))
  {
    var ts := [token] + rest;
    assert ts[1..] == rest;
    var c := Clean(token);
    if c == [] {
      assert done + [] == done;
    } else {
      assert CleanAll(ts)[1..] == CleanAll(rest);
      var more := Bullets(CleanAll(rest));
      assert done + (BULLET + c + "\n" + more) == done + (BULLET + c + "\n") + more;
    }
  }

  lemma PlainPieces()
    ensures |DAILY_HEADER| == |PERIOD_HEADER| == 31 && |CALENDAR| == 5
    ensures Free(DAILY_HEADER, {NUL}) && Free(PERIOD_HEADER, {NUL}) && Free(CALENDAR, {NUL})
  {
  }

  lemma PlainDate(date: Bytes)
    requires |date| >= 8
    ensures |FormatDate(date)| == 19
    ensures Free(date, {NUL}) ==> Free(FormatDate(date), {NUL})
  {
  }

  method StrCatThree(dst: array<char>, ghost text: Bytes, a: Bytes, b: Bytes, c: Bytes)
    requires Holds(dst, text) && Free(a, {NUL}) && Free(b, {NUL}) && Free(c, {NUL})
    requires |text| + |a| + |b| + |c| < dst.Length
    modifies dst
    ensures Holds(dst, text + a + b + c)
  {
    StrCat(dst, text, a);
    StrCat(dst, text + a, b);
    StrCat(dst, text + a + b, c);
  }

  /** get_meal_from_neis from the DDISH_NM string on; `header` is DAILY_HEADER + CALENDAR. */
  method FormatDaily(menu: Bytes, date: Bytes, meal: array<char>)
    requires |date| >= 8 && Free(date, {NUL}) && Free(menu, {NUL})
    requires meal.Length == MAX_MEAL_LEN && meal[MAX_MEAL_LEN - 1] == NUL
    requires |DailyText(date, menu)| < MAX_MEAL_LEN
    modifies meal
    ensures Holds(meal, DailyText(date, menu))
  {
    PlainPieces();
    PlainDate(date);
    WriteDaily(menu, DAILY_HEADER, CALENDAR, FormatDate(date), meal);
  }

  method WriteDaily(menu: Bytes, header: Bytes, mark: Bytes, date: Bytes, meal: array<char>)
    requires Free(menu, {NUL}) && Free(header, {NUL}) && Free(mark, {NUL}) && Free(date, {NUL})
    requires meal.Length == MAX_MEAL_LEN && meal[MAX_MEAL_LEN - 1] == NUL
    requires |header + mark + date + "\n\n" + Bullets(Items(menu))| < MAX_MEAL_LEN
    modifies meal
    ensures Holds(meal, header + mark + date + "\n\n" + Bullets(Items(menu)))
  {
    var result := new char[MAX_MEAL_LEN];
    result[0] := NUL;
    StrCat(result, [], header);
    assert [] + header == header;
    StrCatThree(result, header, mark, date, "\n\n");
    AppendItems(menu, result, header + mark + date + "\n\n");
    StrNCpy(meal, result, header + mark + date + "\n\n" + Bullets(Items(menu)), MAX_MEAL_LEN - 1);
  }

  lemma {:induction false} AccumulateNeeds(header: Bytes, entries: seq<Bytes>, i: nat)
    requires i <= |entries| && Accumulate(header, entries).Some?
    ensures Accumulate(header, entries[..i]).Some?
    decreases |entries|
  {
    if i == |entries| {
      assert entries[..i] == entries;
    } else {
      AccumulateNeeds(header, entries[..|entries| - 1], i);
      assert entries[..|entries| - 1][..i] == entries[..i];
    }
  }

  lemma AccumulateStep(header: Bytes, entries: seq<Bytes>, i: nat)
    requires i < |entries| && Accumulate(header, entries).Some? && Accumulate(header, entries[..i]).Some?
    ensures Accumulate(header, entries[..i + 1]) == Extend(Accumulate(header, entries[..i]).value, entries[i])
    ensures Accumulate(header, entries[..i + 1]).Some?
  {
    AccumulateNeeds(header, entries, i + 1);
    assert entries[..i + 1][..i] == entries[..i] && entries[..i + 1][i] == entries[i];
  }

  /** get_meals_period_from_neis from the row array on. The precondition is exactly that no write
      leaves a buffer; ReportFitsExactly says when that is and that the report is then complete. */
  method FormatPeriod(rows: seq<Row>, meals: array<char>)
    requires forall r :: r in rows ==> GoodRow(r)
    requires meals.Length == MAX_MEAL_LEN && meals[MAX_MEAL_LEN - 1] == NUL
    requires Accumulate(PERIOD_HEADER, Entries(rows)).Some?
    modifies meals
    ensures Holds(meals, PeriodText(rows))
  {
    PlainPieces();
    WriteReport(rows, PERIOD_HEADER, meals);
  }

  method WriteReport(rows: seq<Row>, header: Bytes, meals: array<char>)
    requires forall r :: r in rows ==> GoodRow(r)
    requires meals.Length == MAX_MEAL_LEN && meals[MAX_MEAL_LEN - 1] == NUL && Free(header, {NUL})
    requires Accumulate(header, Entries(rows)).Some?
    modifies meals
    ensures Holds(meals, Report(header, Entries(rows)))
  {
    ghost var entries := Entries(rows);
    AccumulateNeeds(header, entries, 0);
    var buffer := new char[MAX_MEAL_LEN](_ => NUL);
    StrCat(buffer, [], header);
    assert [] + header == header;
    var i := 0;
    while i < |rows|
      invariant 0 <= i <= |rows| && meals[MAX_MEAL_LEN - 1] == NUL
      invariant Accumulate(header, entries[..i]).Some? && Holds(buffer, Accumulate(header, entries[..i]).value)
    {
      AccumulateStep(header, entries, i);
      AddEntry(buffer, Accumulate(header, entries[..i]).value, rows[i]);
      i := i + 1;
    }
    assert entries[..i] == entries;
    ReportFitsExactly(header, entries);
    StrNCpy(meals, buffer, Report(header, entries), MAX_MEAL_LEN - 1);
  }

  method AddEntry(buffer: array<char>, ghost text: Bytes, row: Row)
    requires GoodRow(row) && buffer.Length == MAX_MEAL_LEN && Holds(buffer, text)
    requires Extend(text, EntryText(row)).Some?
    modifies buffer
    ensures Holds(buffer, Extend(text, EntryText(row)).value)
  {
    var entry := FormatEntry(row);
    StrNCat(buffer, text, entry, EntryText(row), MAX_MEAL_LEN);
    StrCat(buffer, Clip(text + EntryText(row), MAX_MEAL_LEN), "\n");
  }

  method FormatEntry(row: Row) returns (entry: array<char>)
    requires GoodRow(row) && |EntryText(row)| < MAX_ENTRY
    ensures fresh(entry) && Holds(entry, EntryText(row))
  {
    entry := new char[MAX_ENTRY](_ => NUL);
    PlainPieces();
    PlainDate(row.date);
    StrCat(entry, [], DateLine(row));
    assert [] + DateLine(row) == DateLine(row);
    AppendItems(row.menu, entry, DateLine(row));
  }

  /** strncat(dst, src, size - strlen(dst) - 1). */
  method StrNCat(dst: array<char>, ghost text: Bytes, src: array<char>, ghost more: Bytes, size: nat)
    requires dst != src && 0 < size <= dst.Length && |text| < size
    requires Holds(dst, text) && Holds(src, more)
    modifies dst
    ensures Holds(dst, Clip(text + more, size))
  {
    var n := StrLen(dst, 0, |text|);
    var m := StrLen(src, 0, |more|);
    var take := if n + m < size then m else size - 1 - n;
    StrCat(dst, text, src[..take]);
    assert text + src[..take] == Clip(text + more, size);
  }

  // ----- How long the text gets -----

  function Total(items: seq<Bytes>): nat {
    if items == [] then 0 else |items[0]| + Total(items[1..])
  }

  lemma {:induction false} BulletsLength(items: seq<Bytes>)
    ensures |Bullets(items)| == Total(items) + 5 * |items|
  {
    if items != [] { BulletsLength(items[1..]); }
  }

  /** Every token costs its own bytes and, but for the last, one delimiter. */
  lemma {:induction false} TokensCost(s: Bytes, ds: set<char>)
    ensures Total(Tokens(s, ds)) + |Tokens(s, ds)| <= |s| + 1
    decreases |s|
  {
    if s != [] {
      if s[0] in ds {
        TokensCost(s[1..], ds);
      } else {
        var n := Span(s, ds);
        var ts := Tokens(s[n..], ds);
        assert Tokens(s, ds)[1..] == ts;
        if n < |s| {
          TokensCost(s[n..][1..], ds);
        }
      }
    }
  }

  lemma CleanShrinks(token: Bytes)
    ensures |Clean(token)| <= |token|
  {
    LeftShrinks(token[..Span(token, {'('})]);
    RightShrinks(TrimLeft(token[..Span(token, {'('})]));
  }

  lemma LeftShrinks(s: Bytes)
    ensures |TrimLeft(s)| <= |s| && (forall c :: c in TrimLeft(s) ==> c in s)
    ensures TrimLeft(s) == [] || TrimLeft(s)[0] != ' '
  {
  }

  lemma RightShrinks(s: Bytes)
    ensures TrimRight(s) <= s
    ensures TrimRight(s) == [] || TrimRight(s)[|TrimRight(s)| - 1] != ' '
  {
  }

  lemma {:induction false} CleanAllCost(ts: seq<Bytes>)
    ensures Total(CleanAll(ts)) + |CleanAll(ts)| <= Total(ts) + |ts|
    ensures |CleanAll(ts)| <= Total(CleanAll(ts))
  {
    if ts != [] {
      CleanAllCost(ts[1..]);
      CleanShrinks(ts[0]);
      if Clean(ts[0]) != [] {
        assert CleanAll(ts)[1..] == CleanAll(ts[1..]);
      }
    }
  }

  /** The longest text a menu of n bytes can produce: 3(n+1) when n is odd. */
  function MaxAppended(n: nat): nat {
    if n == 0 then 0 else if n % 2 == 1 then 3 * (n + 1) else 3 * n + 1
  }

  lemma AppendedAtMost(menu: Bytes)
    ensures |Bullets(Items(menu))| <= MaxAppended(|menu|)
  {
    var tokens := Tokens(menu, BR);
    BulletsLength(CleanAll(tokens));
    TokensCost(menu, BR);
    CleanAllCost(tokens);
    CostArithmetic(Total(CleanAll(tokens)), |CleanAll(tokens)|, |menu|);
  }

  lemma CostArithmetic(total: nat, count: nat, n: nat)
    requires count <= total && total + count <= n + 1 && (count == 0 ==> total == 0)
    ensures total + 5 * count <= MaxAppended(n)
  {
    if n > 0 && n % 2 == 0 && total == count {
      assert total + count == 2 * total;
    }
  }

  /** A menu that reaches the bound. */
  function Worst(n: nat): (menu: Bytes)
    ensures |menu| == n && Free(menu, {NUL})
  {
    if n == 0 then "" else if n == 1 then "a" else if n == 2 then "aa" else "a<" + Worst(n - 2)
  }

  lemma OneMore(token: Bytes, rest: seq<Bytes>)
    requires token != [] && Clean(token) == token
    ensures |Bullets(CleanAll([token] + rest))| == |token| + 5 + |Bullets(CleanAll(rest))|
  {
    BulletsStep(token, rest, []);
    assert |BULLET| == 4 && |BulletFor(token)| == |token| + 5;
  }

  lemma {:induction false} AppendedAttained(n: nat)
    ensures |Bullets(Items(Worst(n)))| == MaxAppended(n)
  {
    if n > 2 {
      AppendedAttained(n - 2);
      WorstGrows(n);
    } else {
      WorstStarts(n);
    }
  }

  lemma WorstStarts(n: nat)
    requires n <= 2
    ensures |Bullets(Items(Worst(n)))| == MaxAppended(n)
  {
    assert IsClean("a") && IsClean("aa");
    if n > 0 { OnlyItem(Worst(n)); }
  }

  lemma WorstGrows(n: nat)
    requires n > 2
    ensures |Bullets(Items(Worst(n)))| == 6 + |Bullets(Items(Worst(n - 2)))| && MaxAppended(n) == 6 + MaxAppended(n - 2)
  {
    OneByteMore(Worst(n - 2));
  }

  lemma OnlyItem(item: Bytes)
    requires IsClean(item)
    ensures |Bullets(Items(item))| == |item| + 5
  {
    PlainItem(item);
    OneMore(item, []);
    TokensOfOne(item, BR);
    assert [item] + [] == [item];
  }

  lemma OneByteMore(menu: Bytes)
    ensures |Bullets(Items("a<" + menu))| == 6 + |Bullets(Items(menu))|
  {
    FirstToken(menu);
    PlainItem("a");
    OneMore("a", Tokens(menu, BR));
  }

  lemma FirstToken(menu: Bytes)
    ensures Tokens("a<" + menu, BR) == ["a"] + Tokens(menu, BR)
  {
    TokensOfOne("a", BR);
    assert "a<" + menu == "a" + ['<'] + menu;
    TokensSplit("a", '<', menu, BR);
  }

  /** What cleaning leaves: nonempty, no delimiter, no parenthesis, no outer space. */
  predicate IsClean(item: Bytes) {
    item != [] && Free(item, BR) && Free(item, {'('}) && item[0] != ' ' && item[|item| - 1] != ' '
  }

  lemma PlainItem(item: Bytes)
    requires IsClean(item)
    ensures Clean(item) == item
  {
    SpanIs(item, |item|, {'('});
    assert item[..|item|] == item;
  }

  lemma DailyFits(date: Bytes, n: nat)
    requires |date| >= 8
    ensures (forall menu: Bytes :: |menu| == n ==> |DailyText(date, menu)| < MAX_MEAL_LEN) <==> n <= 646
  {
    forall menu: Bytes | |menu| == n
      ensures |DailyText(date, menu)| == 57 + |Bullets(Items(menu))|
      ensures |DailyText(date, menu)| <= 57 + MaxAppended(n)
    {
      AppendedAtMost(menu);
    }
    AppendedAttained(n);
    assert |DailyText(date, Worst(n))| == 57 + MaxAppended(n);
  }

  lemma EntryFits(date: Bytes, n: nat)
    requires |date| >= 8 && Free(date, {NUL})
    ensures (forall menu: Bytes :: |menu| == n && Free(menu, {NUL}) ==> |EntryText(Row(date, menu))| < MAX_ENTRY)
            <==> n <= 161
  {
    forall menu: Bytes | |menu| == n && Free(menu, {NUL})
      ensures |EntryText(Row(date, menu))| == 25 + |Bullets(Items(menu))|
      ensures |EntryText(Row(date, menu))| <= 25 + MaxAppended(n)
    {
      AppendedAtMost(menu);
    }
    AppendedAttained(n);
    assert |EntryText(Row(date, Worst(n)))| == 25 + MaxAppended(n);
  }

  // ----- The period report -----

  /** A report is produced exactly when it fits with every entry, and is then complete: strncat
      never clips a report that is returned. */
  lemma {:induction false} ReportFitsExactly(header: Bytes, entries: seq<Bytes>)
    ensures |Report(header, entries)| == |header| + Total(entries) + |entries|
    ensures Accumulate(header, entries).Some? <==>
            && |header| + Total(entries) + |entries| < MAX_MEAL_LEN
            && forall k :: 0 <= k < |entries| ==> |entries[k]| < MAX_ENTRY
    ensures Accumulate(header, entries).Some? ==> Accumulate(header, entries).value == Report(header, entries)
    decreases |entries|
  {
    if entries != [] {
      var front, last := entries[..|entries| - 1], entries[|entries| - 1];
      ReportFitsExactly(header, front);
      TotalSplit(front, last);
      assert entries == front + [last];
      assert forall k :: 0 <= k < |front| ==> front[k] == entries[k];
    }
  }

  lemma {:induction false} TotalSplit(front: seq<Bytes>, last: Bytes)
    ensures Total(front + [last]) == Total(front) + |last|
  {
    if front != [] {
      TotalSplit(front[1..], last);
      assert (front + [last])[1..] == front[1..] + [last];
    }
  }

  // ----- Formatting again -----

  lemma CleanIsClean(token: Bytes)
    requires Free(token, BR) && Clean(token) != []
    ensures IsClean(Clean(token))
  {
    var cut := token[..Span(token, {'('})];
    var left := TrimLeft(cut);
    LeftShrinks(cut);
    RightShrinks(left);
    assert Clean(token) == TrimRight(left);
    forall k | 0 <= k < |Clean(token)|
      ensures Clean(token)[k] !in BR && Clean(token)[k] != '('
    {
      assert Clean(token)[k] == left[k] && left[k] in left;
      var j :| 0 <= j < |cut| && cut[j] == left[k];
      assert cut[j] == token[j];
    }
  }

  lemma {:induction false} ItemsAreClean(tokens: seq<Bytes>)
    requires forall t :: t in tokens ==> Free(t, BR)
    ensures forall it :: it in CleanAll(tokens) ==> IsClean(it)
  {
    if tokens != [] {
      ItemsAreClean(tokens[1..]);
      if Clean(tokens[0]) != [] { CleanIsClean(tokens[0]); }
    }
  }

  lemma {:induction false} CleanAllIdle(items: seq<Bytes>)
    requires forall it :: it in items ==> IsClean(it)
    ensures CleanAll(items) == items
  {
    if items != [] {
      PlainItem(items[0]);
      CleanAllIdle(items[1..]);
    }
  }

  lemma JoinedItemsReturn(items: seq<Bytes>)
    requires forall it :: it in items ==> IsClean(it)
    ensures Items(Join(items, "<br/>")) == items
  {
    assert forall it :: it in items ==> IsClean(it) && Free(it, BR);
    assert forall k :: 0 <= k < |items| ==> items[k] in items;
    TokensOfJoin(items, "<br/>", BR);
    CleanAllIdle(items);
  }

  /** Joining a menu's items with the separator tag and formatting again changes nothing. */
  lemma FormattingIsStable(menu: Bytes)
    ensures Items(Join(Items(menu), "<br/>")) == Items(menu)
  {
    ItemsAreClean(Tokens(menu, BR));
    JoinedItemsReturn(Items(menu));
  }

  // ----- What determines the items -----

  /** A parenthesis and all behind it do not count. */
  lemma CleanCutsTail(a: Bytes, b: Bytes)
    requires Free(a, {'('})
    ensures Clean(a + "(" + b) == Clean(a)
  {
    SpanIs(a + "(" + b, |a|, {'('});
    SpanIs(a, |a|, {'('});
    assert (a + "(" + b)[..|a|] == a[..|a|];
  }

  lemma CleanSkipsSpace(x: Bytes)
    ensures Clean(" " + x) == Clean(x)
  {
    var n := Span(x, {'('});
    SpanIs(" " + x, n + 1, {'('});
    assert (" " + x)[..n + 1] == " " + x[..n];
    assert (" " + x[..n])[1..] == x[..n];
  }

  lemma {:induction false} TrimLeftBefore(x: Bytes)
    ensures TrimLeft(x + " ") == if TrimLeft(x) == [] then [] else TrimLeft(x) + " "
  {
    if x == [] {
      assert x + " " == " " && " "[1..] == [];
    } else if x[0] == ' ' {
      assert (x + " ")[1..] == x[1..] + " ";
      TrimLeftBefore(x[1..]);
    }
  }

  lemma CleanDropsSpace(x: Bytes)
    requires Free(x, {'('})
    ensures Clean(x + " ") == Clean(x)
  {
    SpanIs(x, |x|, {'('});
    SpanIs(x + " ", |x| + 1, {'('});
    assert x[..|x|] == x && (x + " ")[..|x| + 1] == x + " ";
    TrimLeftBefore(x);
    var t := TrimLeft(x);
    assert (t + " ")[..|t|] == t;
  }

  predicate Spaces(s: Bytes) {
    forall k :: 0 <= k < |s| ==> s[k] == ' '
  }

  lemma {:induction false} CleanSkipsSpaces(lead: Bytes, x: Bytes)
    requires Spaces(lead)
    ensures Clean(lead + x) == Clean(x)
  {
    if lead == [] {
      assert lead + x == x;
    } else {
      assert lead + x == " " + (lead[1..] + x);
      CleanSkipsSpace(lead[1..] + x);
      CleanSkipsSpaces(lead[1..], x);
    }
  }

  lemma {:induction false} CleanDropsSpaces(x: Bytes, trail: Bytes)
    requires Spaces(trail) && Free(x, {'('})
    ensures Clean(x + trail) == Clean(x)
  {
    if trail == [] {
      assert x + trail == x;
    } else {
      var front := trail[..|trail| - 1];
      assert x + trail == (x + front) + " ";
      CleanDropsSpace(x + front);
      CleanDropsSpaces(x, front);
    }
  }

  /** A parenthesised tail, or none. */
  predicate Tail(tail: Bytes) {
    tail == [] || tail[0] == '('
  }

  /** Whatever spaces stand around an item and whatever is parenthesised behind it, cleaning leaves the item. */
  lemma CleanKeeps(lead: Bytes, item: Bytes, trail: Bytes, tail: Bytes)
    requires IsClean(item) && Spaces(lead) && Spaces(trail) && Tail(tail)
    ensures Clean(lead + item + trail + tail) == item
  {
    var x := lead + item + trail;
    if tail == [] {
      assert x + tail == x;
    } else {
      assert x + tail == x + "(" + tail[1..];
      CleanCutsTail(x, tail[1..]);
    }
    assert x == lead + (item + trail);
    CleanSkipsSpaces(lead, item + trail);
    CleanDropsSpaces(item, trail);
    PlainItem(item);
  }

  lemma {:induction false} CleanAllSplit(a: seq<Bytes>, b: seq<Bytes>)
    ensures CleanAll(a + b) == CleanAll(a) + CleanAll(b)
  {
    if a == [] {
      assert a + b == b;
    } else {
      assert (a + b)[1..] == a[1..] + b;
      CleanAllSplit(a[1..], b);
    }
  }

  /** Each delimiter byte of the tag separates items. */
  lemma ItemsSplit(a: Bytes, d: char, b: Bytes)
    requires d in BR
    ensures Items(a + [d] + b) == Items(a) + Items(b)
  {
    TokensSplit(a, d, b, BR);
    CleanAllSplit(Tokens(a, BR), Tokens(b, BR));
  }

  /** Between delimiters there is one item, or none when cleaning leaves nothing. */
  lemma ItemsOfOne(token: Bytes)
    requires Free(token, BR)
    ensures Items(token) == if Clean(token) == [] then [] else [Clean(token)]
  {
    TokensOfOne(token, BR);
    if token != [] { CleanAllOne(token); }
  }

  lemma CleanAllOne(token: Bytes)
    ensures CleanAll([token]) == if Clean(token) == [] then [] else [Clean(token)]
  {
    assert [token][1..] == [];
  }

  /** So an item is kept as it is, with its outer spaces and its allergy numbers gone. */
  lemma ItemKept(lead: Bytes, item: Bytes, trail: Bytes, tail: Bytes)
    requires IsClean(item) && Spaces(lead) && Spaces(trail) && Tail(tail) && Free(tail, BR)
    ensures Items(lead + item + trail + tail) == [item]
  {
    var token := lead + item + trail + tail;
    CleanKeeps(lead, item, trail, tail);
    assert Free(token, BR);
    ItemsOfOne(token);
  }

  lemma KeptWithTail(item: Bytes, tail: Bytes)
    requires IsClean(item) && Tail(tail) && Free(tail, BR)
    ensures Items(item + tail) == [item]
  {
    assert [] + item + [] + tail == item + tail;
    ItemKept([], item, [], tail);
  }

  /** The item "Rice(1.5)" is kept as "Rice". */
  lemma RiceIsKept()
    ensures Items("Rice(1.5)") == ["Rice"]
  {
    RiceIsClean();
    assert "Rice" + "(1.5)" == "Rice(1.5)";
    KeptWithTail("Rice", "(1.5)");
  }

  lemma RiceIsClean()
    ensures IsClean("Rice") && Tail("(1.5)") && Free("(1.5)", BR)
  {
  }

  lemma {:induction false} BulletsSplit(a: seq<Bytes>, b: seq<Bytes>)
    ensures Bullets(a + b) == Bullets(a) + Bullets(b)
  {
    if a == [] {
      assert a + b == b;
    } else {
      assert (a + b)[1..] == a[1..] + b;
      BulletsSplit(a[1..], b);
    }
  }

  lemma BulletLine(item: Bytes)
    ensures Bullets([item]) == "\U{E2}\U{80}\U{A2} " + item + "\n"
  {
    assert [item][1..] == [];
  }

  /** Year, month and day, each before its own mark. */
  lemma DateSpelled(year: Bytes, month: Bytes, day: Bytes)
    requires |year| == 4 && |month| == 2 && |day| == 2
    ensures FormatDate(year + month + day) == year + YEAR_MARK + month + MONTH_MARK + day + DAY_MARK
  {
    var date := year + month + day;
    assert date[..4] == year && date[4..6] == month && date[6..8] == day;
  }

  lemma DailySpelled(year: Bytes, month: Bytes, day: Bytes, menu: Bytes)
    requires |year| == 4 && |month| == 2 && |day| == 2
    ensures DailyText(year + month + day, menu) ==
            DAILY_HEADER + CALENDAR + (year + YEAR_MARK + month + MONTH_MARK + day + DAY_MARK) + "\n\n"
            + Bullets(Items(menu))
  {
    DateSpelled(year, month, day);
  }

  lemma EntrySpelled(year: Bytes, month: Bytes, day: Bytes, menu: Bytes)
    requires |year| == 4 && |month| == 2 && |day| == 2 && GoodRow(Row(year + month + day, menu))
    ensures EntryText(Row(year + month + day, menu)) ==
            CALENDAR + (year + YEAR_MARK + month + MONTH_MARK + day + DAY_MARK) + "\n" + Bullets(Items(menu))
  {
    DateSpelled(year, month, day);
  }

  /** A report is its header, then the entries in row order. */
  lemma {:induction false} ReportSplit(header: Bytes, a: seq<Bytes>, b: seq<Bytes>)
    ensures Report(header, a + b) == Report(Report(header, a), b)
    decreases |b|
  {
    if b == [] {
      assert a + b == a;
    } else {
      var front := b[..|b| - 1];
      assert (a + b)[..|a + b| - 1] == a + front;
      ReportSplit(header, a, front);
    }
  }

  lemma ReportOfOne(header: Bytes, entry: Bytes)
    ensures Report(header, [entry]) == header + entry + "\n"
  {
    assert [entry][..0] == [];
  }
}
