/** The restore header of a transitioned object (cmd/bucket-lifecycle.go): printed with the
    object's metadata and parsed again. */
module RestoreStatus {
  import opened Basics

  /** Seconds. */
  type Time = int

  datatype Status = Ongoing | Completed(expiry: Time)

  /** Printing and parsing of dates. */
  datatype DateFormat = DateFormat(format: Time -> string, parse: string -> Option<Time>) {
    ghost predicate Valid() {
      forall t :: parse(format(t)) == Some(t)
    }
  }

  const ONGOING_REQUEST := "ongoing-request"
  const EXPIRY_DATE := "expiry-date"

  // ----- String functions of the source's library

  /** strings.SplitN into two at a one-character separator. */
  function Cut(s: string, c: char): (string, Option<string>) {
    if s == [] then ([], None)
    else if s[0] == c then ([], Some(s[1..]))
    else
      var (a, b) := Cut(s[1..], c);
      ([s[0]] + a, b)
  }

  predicate IsSpace(c: char) {
    c in {'\t', '\n', '\U{0b}', '\U{0c}', '\r', ' ', '\U{85}', '\U{a0}', '\U{1680}', '\U{2028}', '\U{2029}', '\U{202f}', '\U{205f}', '\U{3000}'}
    || '\U{2000}' <= c <= '\U{200a}'
  }

  /** strings.TrimSpace */
  function TrimSpace(s: string): string {
    if s == [] then []
    else if IsSpace(s[0]) then TrimSpace(s[1..])
    else if IsSpace(s[|s| - 1]) then TrimSpace(s[..|s| - 1])
    else s
  }

  lemma {:induction false} CutAt(a: string, c: char, b: string)
    requires c !in a
    ensures Cut(a + [c] + b, c) == (a, Some(b))
  {
    var s := a + [c] + b;
    if a == [] {
      assert s[1..] == b;
    } else {
      CutAt(a[1..], c, b);
      assert a == [a[0]] + a[1..] && s[0] == a[0] && a[0] in a;
      assert s[1..] == a[1..] + [c] + b;
    }
  }

  lemma {:induction false} CutNowhere(s: string, c: char)
    requires c !in s
    ensures Cut(s, c) == (s, None)
  {
    if s != [] {
      CutNowhere(s[1..], c);
      assert s == [s[0]] + s[1..] && s[0] in s;
    }
  }

  lemma {:induction false} CutIsSplit(s: string, c: char)
    ensures var (a, b) := Cut(s, c);
            c !in a && s == if b.Some? then a + [c] + b.value else a
  {
    if s != [] && s[0] != c {
      CutIsSplit(s[1..], c);
    }
  }

  lemma {:induction false} TrimmedChars(s: string, c: char)
    requires c in s && !IsSpace(c)
    ensures c in TrimSpace(s)
  {
    if IsSpace(s[0]) {
      assert s == [s[0]] + s[1..];
      TrimmedChars(s[1..], c);
    } else if IsSpace(s[|s| - 1]) {
      assert s == s[..|s| - 1] + [s[|s| - 1]];
      TrimmedChars(s[..|s| - 1], c);
    }
  }

  lemma NoSeparators(s: string)
    requires TrimSpace(s) == ONGOING_REQUEST || TrimSpace(s) == EXPIRY_DATE
    ensures ',' !in s && '=' !in s
  {
    if ',' in s {
      TrimmedChars(s, ',');
    }
    if '=' in s {
      TrimmedChars(s, '=');
    }
  }

  // ----- The codec

  function Print(f: DateFormat, r: Status): string {
    match r
    case Ongoing => ONGOING_REQUEST + "=true"
    case Completed(expiry) => ONGOING_REQUEST + "=false, " + EXPIRY_DATE + "=" + f.format(expiry)
  }

  function Parse(f: DateFormat, header: string): Option<Status> {
    var (progress, rest) := Cut(header, ',');
    var (name, value) := Cut(progress, '=');
    if value.None? || TrimSpace(name) != ONGOING_REQUEST then None
    else if value.value == "true" then if rest.None? then Some(Ongoing) else None
    else if value.value == "false" then if rest.Some? then ParseExpiry(f, rest.value) else None
    else None
  }

  function ParseExpiry(f: DateFormat, s: string): Option<Status> {
    var (name, date) := Cut(s, '=');
    if date.None? || TrimSpace(name) != EXPIRY_DATE then None
    else if f.parse(date.value).None? then None
    else Some(Completed(f.parse(date.value).value))
  }

  /** The headers that say a restore is under way: white space around the name is all that
      may vary. */
  lemma OngoingExact(f: DateFormat, header: string)
    ensures Parse(f, header) == Some(Ongoing) <==>
            exists name :: TrimSpace(name) == "ongoing-request" && header == name + "=" + "true"
  {
    if Parse(f, header) == Some(Ongoing) {
      CutIsSplit(header, ',');
      CutIsSplit(Cut(header, ',').0, '=');
      var name := Cut(Cut(header, ',').0, '=').0;
      assert TrimSpace(name) == ONGOING_REQUEST && header == name + "=" + "true";
    }
    if name :| TrimSpace(name) == ONGOING_REQUEST && header == name + "=" + "true" {
      NoSeparators(name);
      CutNowhere(header, ',');
      CutAt(name, '=', "true");
    }
  }

  /** The headers that say it completed: the date is taken as it is. */
  lemma CompletedExact(f: DateFormat, header: string, t: Time)
    ensures Parse(f, header) == Some(Completed(t)) <==> exists name, key, date :: IsCompleted(f, header, t, name, key, date)
  {
    if Parse(f, header) == Some(Completed(t)) {
      CutIsSplit(header, ',');
      CutIsSplit(Cut(header, ',').0, '=');
      var rest := Cut(header, ',').1.value;
      CutIsSplit(rest, '=');
      var name, key, date := Cut(Cut(header, ',').0, '=').0, Cut(rest, '=').0, Cut(rest, '=').1.value;
      assert IsCompleted(f, header, t, name, key, date);
    }
    if name, key, date :| IsCompleted(f, header, t, name, key, date) {
      CompletedParses(f, header, t, name, key, date);
    }
  }

  predicate IsCompleted(f: DateFormat, header: string, t: Time, name: string, key: string, date: string) {
    && TrimSpace(name) == "ongoing-request" && TrimSpace(key) == "expiry-date"
    && header == (name + "=" + "false") + "," + (key + "=" + date)
    && f.parse(date) == Some(t)
  }

  lemma CompletedParses(f: DateFormat, header: string, t: Time, name: string, key: string, date: string)
    requires IsCompleted(f, header, t, name, key, date)
    ensures Parse(f, header) == Some(Completed(t))
  {
    NoSeparators(name);
    NoSeparators(key);
    CutAt(name + "=" + "false", ',', key + "=" + date);
    CutAt(name, '=', "false");
    CutAt(key, '=', date);
    hide Cut, TrimSpace;
  }

  /** The headers themselves. */
  lemma Printed(f: DateFormat, t: Time)
    ensures Print(f, Ongoing) == "ongoing-request=true"
    ensures Print(f, Completed(t)) == "ongoing-request=false, expiry-date=" + f.format(t)
  {
    assert Print(f, Completed(t)) == "ongoing-request=false, expiry-date=" + f.format(t);
  }

  /** A printed status parses back. */
  lemma RestoreRoundTrip(f: DateFormat, r: Status)
    requires f.Valid()
    ensures Parse(f, Print(f, r)) == Some(r)
  {
    Untrimmed();
    match r
    case Ongoing =>
      assert Print(f, r) == ONGOING_REQUEST + "=" + "true";
      OngoingExact(f, Print(f, r));
    case Completed(t) =>
      var date := f.format(t);
      assert Print(f, r) == (ONGOING_REQUEST + "=" + "false") + "," + (" " + EXPIRY_DATE + "=" + date);
      CompletedParses(f, Print(f, r), t, ONGOING_REQUEST, " " + EXPIRY_DATE, date);
  }

  lemma Untrimmed()
    ensures TrimSpace(ONGOING_REQUEST) == ONGOING_REQUEST && TrimSpace(" " + EXPIRY_DATE) == EXPIRY_DATE
  {
    assert (" " + EXPIRY_DATE)[1..] == EXPIRY_DATE;
  }
}
