/** A meal query from the session's own school: from the stored codes to the formatted text on the wire. */
module Meals {
  import opened CStrings
  import opened Options
  import opened Protocol
  import opened Accounts
  import opened Service
  import MenuFormat

  // ----- Formatted text on the wire -----

  lemma {:induction false} BulletsFree(items: seq<Bytes>)
    requires forall it :: it in items ==> Free(it, SLASH)
    ensures Free(MenuFormat.Bullets(items), SLASH)
  {
    if items != [] {
      BulletsFree(items[1..]);
      FreeParts(MenuFormat.BULLET, items[0], "\n", MenuFormat.Bullets(items[1..]));
    }
  }

  lemma FreeParts(a: Bytes, b: Bytes, c: Bytes, d: Bytes)
    requires Free(a, SLASH) && Free(b, SLASH) && Free(c, SLASH) && Free(d, SLASH)
    ensures Free(a + b + c + d, SLASH)
  {
  }

  /** '/' is one of the delimiters the menu is split at, so no menu can bring one into the text. */
  lemma MenuFree(menu: Bytes)
    ensures Free(MenuFormat.Bullets(MenuFormat.Items(menu)), SLASH)
  {
    var items := MenuFormat.Items(menu);
    MenuFormat.ItemsAreClean(Tokens(menu, MenuFormat.BR));
    forall it | it in items
      ensures Free(it, SLASH)
    {
      assert MenuFormat.IsClean(it) && Free(it, MenuFormat.BR);
    }
    BulletsFree(items);
  }

  lemma PiecesFree()
    ensures Free(MenuFormat.DAILY_HEADER, SLASH) && Free(MenuFormat.PERIOD_HEADER, SLASH)
    ensures Free(MenuFormat.CALENDAR, SLASH)
  {
  }

  lemma DateFree(date: Bytes)
    requires |date| >= 8 && Free(date, SLASH)
    ensures Free(MenuFormat.FormatDate(date), SLASH)
  {
  }

  lemma DailyFree(date: Bytes, menu: Bytes)
    requires |date| >= 8 && Free(date, SLASH)
    ensures MenuFormat.DailyText(date, menu) != [] && Free(MenuFormat.DailyText(date, menu), SLASH)
  {
    PiecesFree();
    DateFree(date);
    MenuFree(menu);
    FreeParts(MenuFormat.DAILY_HEADER, MenuFormat.CALENDAR, MenuFormat.FormatDate(date), "\n\n");
    FreeParts(MenuFormat.DAILY_HEADER + MenuFormat.CALENDAR + MenuFormat.FormatDate(date) + "\n\n",
              MenuFormat.Bullets(MenuFormat.Items(menu)), [], []);
    assert MenuFormat.DailyText(date, menu)[0] == MenuFormat.DAILY_HEADER[0];
  }

  lemma EntryFree(r: MenuFormat.Row)
    requires MenuFormat.GoodRow(r) && Free(r.date, SLASH)
    ensures Free(MenuFormat.EntryText(r), SLASH)
  {
    PiecesFree();
    DateFree(r.date);
    MenuFree(r.menu);
    FreeParts(MenuFormat.CALENDAR, MenuFormat.FormatDate(r.date), "\n", MenuFormat.Bullets(MenuFormat.Items(r.menu)));
  }

  lemma {:induction false} ReportFree(header: Bytes, entries: seq<Bytes>)
    requires header != [] && Free(header, SLASH) && forall k :: 0 <= k < |entries| ==> Free(entries[k], SLASH)
    ensures MenuFormat.Report(header, entries) != [] && Free(MenuFormat.Report(header, entries), SLASH)
    decreases |entries|
  {
    if entries != [] {
      var front := entries[..|entries| - 1];
      ReportFree(header, front);
      FreeParts(MenuFormat.Report(header, front), entries[|entries| - 1], "\n", []);
    }
  }

  lemma PeriodFree(rows: seq<MenuFormat.Row>)
    requires forall r :: r in rows ==> MenuFormat.GoodRow(r) && Free(r.date, SLASH)
    ensures MenuFormat.PeriodText(rows) != [] && Free(MenuFormat.PeriodText(rows), SLASH)
  {
    PiecesFree();
    MenuFormat.PlainPieces();
    var entries := MenuFormat.Entries(rows);
    forall k | 0 <= k < |entries|
      ensures Free(entries[k], SLASH)
    {
      assert rows[k] in rows;
      EntryFree(rows[k]);
    }
    ReportFree(MenuFormat.PERIOD_HEADER, entries);
  }

  /** A successful reply whose data holds no slash and fits splits into exactly status, message and data. */
  lemma DataReplyTokens(text: Bytes, data: Bytes)
    requires PlainText(text) && data != [] && Free(data, SLASH) && |data| < MenuFormat.MAX_MEAL_LEN
    ensures Tokens(Format(1, text, data), SLASH) == ["1", text, data]
  {
    var fields := ["1", text, data];
    assert fields[1..] == [text, data] && fields[1..][1..] == [data];
    assert Join([data], DELIMITER) == data;
    assert Join([text, data], DELIMITER) == text + DELIMITER + data;
    assert Join(fields, DELIMITER) == "1" + DELIMITER + (text + DELIMITER + data);
    assert Join(fields, DELIMITER) == Format(1, text, data);
    assert forall f :: f in fields ==> Free(f, SLASH);
    TokensOfJoin(fields, DELIMITER, SLASH);
  }

  // ----- The query -----

  lemma MealQueryServed(db: Db, r: Request, env: Env)
    requires r.MealRequest? && Printable(r)
    ensures Serve(db, Print(r), env) ==
            match CodesFor(r.edu, r.school, env)
            case None => Outcome(db, Error(SchoolNotFound))
            case Some(c) => MealOutcome(db, c, r.date, env)
  {
    var p := MealParsed(r);
    assert Serve(db, Print(r), env) == CarryOut(db, OnMeal(p, env));
  }

  lemma MealParsed(r: Request) returns (p: Parsed)
    requires r.MealRequest? && Printable(r)
    ensures Decode(Print(r)) == Some(p)
    ensures p == Parsed(GetMeal, None, None, Some(r.edu), Some(r.school), Some(r.date), None, None)
  {
    var args := [r.edu, r.school, r.date];
    PrintTokens(r);
    CommandOfName(GetMeal);
    DecodeTokens(Print(r), Name(GetMeal), args);
    p := ParsedOf(GetMeal, args);
  }

  lemma SessionQueryPrintable(c: Codes, date: Bytes)
    requires GoodCodes(c) && GoodField(date) && |date| == 8
    ensures Printable(MealRequest(c.edu, c.school, date))
  {
    var r := MealRequest(c.edu, c.school, date);
    assert Arguments(r) == [c.edu, c.school, date];
    var fields := [Name(GetMeal)] + [c.edu, c.school, date];
    assert fields[1..] == [c.edu, c.school, date] && fields[1..][1..] == [c.school, date];
    assert fields[1..][1..][1..] == [date];
    assert Join([date], DELIMITER) == date;
    assert Join([c.school, date], DELIMITER) == c.school + DELIMITER + date;
    assert Join([c.edu, c.school, date], DELIMITER) == c.edu + DELIMITER + (c.school + DELIMITER + date);
    assert Payload(r) == Name(GetMeal) + DELIMITER + (c.edu + DELIMITER + (c.school + DELIMITER + date));
  }

  /** The codes a login brought are sent back as office and school. A school code that starts with a digit is
      taken as it is, so the query is for exactly that school and day; any other is looked up as if it were
      a school's name. */
  lemma SessionQuery(db: Db, c: Codes, date: Bytes, env: Env)
    requires GoodCodes(c) && GoodField(date) && |date| == 8
    ensures Serve(db, Print(MealRequest(c.edu, c.school, date)), env) ==
            if '0' <= c.school[0] <= '9' then MealOutcome(db, c, date, env)
            else if c.school in env.schools then MealOutcome(db, env.schools[c.school], date, env)
            else Outcome(db, Error(SchoolNotFound))
  {
    SessionQueryPrintable(c, date);
    MealQueryServed(db, MealRequest(c.edu, c.school, date), env);
  }

  function MealOutcome(db: Db, c: Codes, date: Bytes, env: Env): Outcome {
    var q := Daily(c.edu, c.school, date);
    if q in env.meals then Outcome(db, Ok(MealOk, env.meals[q])) else Outcome(db, Error(MealNotFound))
  }

  /** So, for a numeric school code, the menu served is that school's, and the formatted text, whenever it
      fits its buffer, reaches the client as one field whatever the menu contains. */
  lemma SessionMeal(db: Db, c: Codes, date: Bytes, menu: Bytes, env: Env, w: Wording)
    requires GoodCodes(c) && '0' <= c.school[0] <= '9' && GoodField(date) && |date| == 8 && PlainWording(w)
    requires Daily(c.edu, c.school, date) in env.meals
    requires env.meals[Daily(c.edu, c.school, date)] == MenuFormat.DailyText(date, menu)
    requires |MenuFormat.DailyText(date, menu)| < MenuFormat.MAX_MEAL_LEN
    ensures var o := Serve(db, Print(MealRequest(c.edu, c.school, date)), env);
            o.db == db && |o.replies| == 1 &&
            Tokens(Wire(o.replies[0], w), SLASH) == ["1", w(MealOk), MenuFormat.DailyText(date, menu)]
  {
    SessionQuery(db, c, date, env);
    DailyFree(date, menu);
    assert PlainText(w(MealOk));
    DataReplyTokens(w(MealOk), MenuFormat.DailyText(date, menu));
  }

  /** The same for a whole report: any report the formatter can produce is one field of its reply. */
  lemma ReportFramed(rows: seq<MenuFormat.Row>, w: Wording)
    requires forall r :: r in rows ==> MenuFormat.GoodRow(r) && Free(r.date, SLASH)
    requires MenuFormat.Accumulate(MenuFormat.PERIOD_HEADER, MenuFormat.Entries(rows)).Some? && PlainWording(w)
    ensures Tokens(Wire(Reply(1, MultiMealOk, MenuFormat.PeriodText(rows)), w), SLASH) ==
            ["1", w(MultiMealOk), MenuFormat.PeriodText(rows)]
  {
    PeriodFree(rows);
    MenuFormat.ReportFitsExactly(MenuFormat.PERIOD_HEADER, MenuFormat.Entries(rows));
    assert PlainText(w(MultiMealOk));
    DataReplyTokens(w(MultiMealOk), MenuFormat.PeriodText(rows));
  }
}
