/**
 * Webshotter reads a list of URLs, puts each one (with `http://` added when
 * it lacks an `http` prefix) on a work queue, and worker threads save a PNG
 * screenshot of each page under a name built from the URL and the time.
 * This module holds the deterministic part: filename sanitising, the time
 * stamp, the screenshot file name, URL normalisation, and the start-up
 * configuration and enqueue loop of `main`.
 */
module Webshotter {
  import opened Wrappers
  import opened PyStrings

  // ---------------------------------------------------------------------
  // Filenames (parse_filename)
  // ---------------------------------------------------------------------

  /** A character that `parse_filename` turns into `_`. */
  predicate Unsafe(ch: char)
  {
    ch == ':' || ch == '/'
  }

  /** `parse_filename`: `name.replace(":", "_").replace("/", "_")`. */
  function ParseFilename(name: string): (r: string)
    ensures |r| == |name|
    ensures ':' !in r && '/' !in r
    ensures forall i :: 0 <= i < |name| ==> r[i] == (if Unsafe(name[i]) then '_' else name[i])
  {
    ReplaceChar(ReplaceChar(name, ':', '_'), '/', '_')
  }

  /** A name without `:` and `/` is left alone by `parse_filename`. */
  lemma ParseFilenameOfSafe(name: string)
    requires ':' !in name && '/' !in name
    ensures ParseFilename(name) == name
  {
  }

  /** Sanitising twice is sanitising once. */
  lemma ParseFilenameIdempotent(name: string)
    ensures ParseFilename(ParseFilename(name)) == ParseFilename(name)
  {
  }

  /** Sanitising works character by character, so it distributes over `+`. */
  lemma ParseFilenameConcat(a: string, b: string)
    ensures ParseFilename(a + b) == ParseFilename(a) + ParseFilename(b)
  {
  }

  /** The example of a sanitised URL. */
  lemma ParseFilenameExample()
    ensures ParseFilename("http://a.com/x:y") == "http___a.com_x_y"
  {
  }

  // ---------------------------------------------------------------------
  // Time stamp (get_date_hour)
  // ---------------------------------------------------------------------

  /** The first step of `get_date_hour`: spaces become `_`, colons are removed. */
  function Friendly(s: string): (r: string)
    ensures ' ' !in r && ':' !in r
    ensures |r| <= |s|
  {
    DeleteCharMembers(ReplaceChar(s, ' ', '_'), ':', ' ');
    DeleteChar(ReplaceChar(s, ' ', '_'), ':')
  }

  /**
   * The friendly form has no space and no colon; it holds every other
   * character of the input, and `_` besides when the input had a space.
   */
  lemma FriendlyChars(s: string)
    ensures ' ' !in Friendly(s) && ':' !in Friendly(s)
    ensures forall x :: x in Friendly(s) <==> (x in s && x != ' ' && x != ':') || (x == '_' && ' ' in s)
  {
    forall x ensures x in Friendly(s) <==> (x in s && x != ' ' && x != ':') || (x == '_' && ' ' in s) {
      ReplaceCharMembers(s, ' ', '_', x);
      DeleteCharMembers(ReplaceChar(s, ' ', '_'), ':', x);
    }
  }

  /** Without spaces and colons there is nothing to change. */
  lemma FriendlyOfPlain(s: string)
    requires ' ' !in s && ':' !in s
    ensures Friendly(s) == s
  {
    var t := ReplaceChar(s, ' ', '_');
    forall i | 0 <= i < |s| ensures t[i] == s[i] {
      assert s[i] in s;
    }
    assert t == s;
    DeleteCharAbsent(s, ':');
  }

  lemma FriendlyConcat(a: string, b: string)
    ensures Friendly(a + b) == Friendly(a) + Friendly(b)
  {
    ReplaceCharConcat(a, b, ' ', '_');
    DeleteCharConcat(ReplaceChar(a, ' ', '_'), ReplaceChar(b, ' ', '_'), ':');
  }

  /** Only colons vanish: the friendly form is empty exactly when the input is all colons. */
  lemma FriendlyEmpty(s: string)
    ensures Friendly(s) == [] <==> forall j :: 0 <= j < |s| ==> s[j] == ':'
  {
    var t := ReplaceChar(s, ' ', '_');
    var r := DeleteChar(t, ':');
    assert Friendly(s) == r;
    if exists j :: 0 <= j < |s| && s[j] != ':' {
      var j :| 0 <= j < |s| && s[j] != ':';
      assert t[j] != ':' && t[j] in t;
      DeleteCharMembers(t, ':', t[j]);
    } else if r != [] {
      DeleteCharMembers(t, ':', r[0]);
      assert r[0] in t;
    }
  }

  /**
   * `get_date_hour` applied to the rendered time `now` (the value of
   * `str(datetime.datetime.now())`). The `return` sits inside `if i > 0`, so
   * when the friendly form has no `.`, or has it only at index 0, the
   * function falls off its end and returns `None`.
   */
  function DateHour(now: string): (r: Option<string>)
    ensures r.Some? ==> r.value != [] && ' ' !in r.value && ':' !in r.value && '.' !in r.value
  {
    FriendlyChars(now);
    var d := Friendly(now);
    var i := Find(d, '.');
    if i > 0 then Some(d[..i]) else None
  }

  lemma FriendlyAroundDot(a: string, b: string)
    ensures Friendly(a + ['.'] + b) == Friendly(a) + ['.'] + Friendly(b)
  {
    FriendlyConcat(a + ['.'], b);
    FriendlyConcat(a, ['.']);
    FriendlyOfPlain(['.']);
  }

  /**
   * What `get_date_hour` yields, stated on the rendered time itself: the part
   * before its first `.`, made friendly, provided that part has something
   * other than colons; otherwise nothing.
   */
  lemma DateHourBeforeFirstDot(now: string)
    ensures var k := Find(now, '.');
            DateHour(now) == if 0 <= k && Friendly(now[..k]) != [] then Some(Friendly(now[..k])) else None
  {
    var k := Find(now, '.');
    var d := Friendly(now);
    if k == -1 {
      FriendlyChars(now);
    } else {
      var a, b := now[..k], now[k + 1..];
      assert now == a + ['.'] + b;
      FriendlyAroundDot(a, b);
      FriendlyChars(a);
      var fa, fb := Friendly(a), Friendly(b);
      FindAfterPrefix(fa, '.', fb);
      assert d[..|fa|] == fa;
    }
  }

  /** Exactly when `get_date_hour` returns `None`. */
  lemma DateHourNone(now: string)
    ensures DateHour(now) == None <==>
            '.' !in now || forall j :: 0 <= j < Find(now, '.') ==> now[j] == ':'
  {
    DateHourBeforeFirstDot(now);
    var k := Find(now, '.');
    if 0 <= k {
      FriendlyEmpty(now[..k]);
      assert forall j :: 0 <= j < k ==> now[..k][j] == now[j];
    }
  }

  /** A field of a rendered time: no space, colon or dot in it. */
  predicate Field(s: string)
  {
    ' ' !in s && ':' !in s && '.' !in s
  }

  /** `str` of a `datetime` without the fraction: `date hh:mm:ss`. */
  function Rendered(date: string, hh: string, mm: string, ss: string): string
  {
    date + " " + hh + ":" + mm + ":" + ss
  }

  /** Joining a plain field after one separator. */
  lemma FriendlyJoin(a: string, x: char, b: string)
    requires ' ' !in b && ':' !in b
    ensures Friendly(a + [x] + b) == Friendly(a) + Friendly([x]) + b
  {
    FriendlyConcat(a + [x], b);
    FriendlyConcat(a, [x]);
    FriendlyOfPlain(b);
  }

  /** A colon before a plain field disappears. */
  lemma FriendlyColonJoin(a: string, b: string)
    requires ' ' !in b && ':' !in b
    ensures Friendly(a + ":" + b) == Friendly(a) + b
  {
    assert Friendly([':']) == [];
    FriendlyJoin(a, ':', b);
  }

  /** The clock part `hh:mm:ss` made friendly: `hhmmss`. */
  lemma FriendlyClock(hh: string, mm: string, ss: string)
    requires Field(hh) && Field(mm) && Field(ss)
    ensures Friendly(hh + ":" + mm + ":" + ss) == hh + mm + ss
  {
    FriendlyOfPlain(hh);
    FriendlyColonJoin(hh, mm);
    FriendlyColonJoin(hh + ":" + mm, ss);
  }

  /** A rendered time made friendly: `date_hhmmss`. */
  lemma FriendlyRendered(date: string, hh: string, mm: string, ss: string)
    requires Field(date) && Field(hh) && Field(mm) && Field(ss)
    ensures Friendly(Rendered(date, hh, mm, ss)) == date + "_" + hh + mm + ss
    ensures '.' !in Rendered(date, hh, mm, ss)
  {
    var clock := hh + ":" + mm + ":" + ss;
    assert Rendered(date, hh, mm, ss) == date + [' '] + clock;
    FriendlyClock(hh, mm, ss);
    assert Friendly([' ']) == ['_'];
    FriendlyConcat(date + [' '], clock);
    FriendlyConcat(date, [' ']);
    FriendlyOfPlain(date);
  }

  /** With a sub-second part, `get_date_hour` gives `date_hhmmss`. */
  lemma DateHourWithFraction(date: string, hh: string, mm: string, ss: string, fraction: string)
    requires Field(date) && Field(hh) && Field(mm) && Field(ss)
    ensures DateHour(Rendered(date, hh, mm, ss) + "." + fraction) == Some(date + "_" + hh + mm + ss)
  {
    var a := Rendered(date, hh, mm, ss);
    var now := a + "." + fraction;
    FriendlyRendered(date, hh, mm, ss);
    FindAfterPrefix(a, '.', fraction);
    DateHourBeforeFirstDot(now);
    assert now[..|a|] == a;
  }

  /** The example time split into its fields. */
  lemma ExampleFields()
    ensures Rendered("2024-01-02", "03", "04", "05") + "." + "678901" == "2024-01-02 03:04:05.678901"
    ensures "2024-01-02" + "_" + "03" + "04" + "05" == "2024-01-02_030405"
  {
  }

  /** `2024-01-02 03:04:05.678901` gives `2024-01-02_030405`. */
  lemma DateHourExample()
    ensures DateHour("2024-01-02 03:04:05.678901") == Some("2024-01-02_030405")
  {
    ExampleFields();
    DateHourWithFraction("2024-01-02", "03", "04", "05", "678901");
  }

  // ---------------------------------------------------------------------
  // Screenshot file name (take_screenshot)
  // ---------------------------------------------------------------------

  /** The name `take_screenshot` saves under: `parse_filename(url + "-screenshot-" + date_hour + ".png")`. */
  function ScreenshotName(url: string, dateHour: string): (r: string)
    ensures |r| == |url| + 12 + |dateHour| + 4
    ensures EndsWith(r, ".png")
    ensures ':' !in r && '/' !in r
  {
    var name := url + "-screenshot-" + dateHour + ".png";
    assert name[|name| - 4..] == ".png";
    ParseFilename(name)
  }

  /** The name is the sanitised URL, the marker, the sanitised stamp and the extension. */
  lemma ScreenshotNameParts(url: string, dateHour: string)
    ensures ScreenshotName(url, dateHour) ==
            ParseFilename(url) + "-screenshot-" + ParseFilename(dateHour) + ".png"
  {
  }

  /** Two captures of one URL with different (safe) stamps get different names. */
  lemma ScreenshotNameInjective(url: string, d1: string, d2: string)
    requires ':' !in d1 && '/' !in d1 && ':' !in d2 && '/' !in d2
    requires ScreenshotName(url, d1) == ScreenshotName(url, d2)
    ensures d1 == d2
  {
    ScreenshotNameParts(url, d1);
    ScreenshotNameParts(url, d2);
    ParseFilenameOfSafe(d1);
    ParseFilenameOfSafe(d2);
    var n := ScreenshotName(url, d1);
    var lo := |url| + 12;
    assert n[lo..lo + |d1|] == d1;
    assert n[lo..lo + |d2|] == d2;
  }

  /**
   * The file name a worker computes for `url` when the rendered time is
   * `now`, as written: when `get_date_hour` gives `None`, the concatenation
   * `url + "-screenshot-" + None` raises a `TypeError` and no name results.
   */
  function CaptureFileNameAsWritten(url: string, now: string): (r: Option<string>)
    ensures r.None? <==> '.' !in now || forall j :: 0 <= j < Find(now, '.') ==> now[j] == ':'
    ensures r.Some? ==> EndsWith(r.value, ".png") && ':' !in r.value && '/' !in r.value
  {
    DateHourNone(now);
    match DateHour(now)
    case None => None
    case Some(stamp) => Some(ScreenshotName(url, stamp))
  }

  /**
   * A time rendered on a whole second (`str` of a `datetime` whose
   * microsecond is 0 has no fraction) gives no stamp, so the worker never
   * gets a file name for it.
   */
  lemma WholeSecondGivesNoName(url: string, date: string, hh: string, mm: string, ss: string)
    requires Field(date) && Field(hh) && Field(mm) && Field(ss)
    ensures DateHour(Rendered(date, hh, mm, ss)) == None
    ensures CaptureFileNameAsWritten(url, Rendered(date, hh, mm, ss)) == None
  {
    FriendlyRendered(date, hh, mm, ss);
    DateHourBeforeFirstDot(Rendered(date, hh, mm, ss));
  }

  /**
   * `get_date_hour` as its comment says it is meant to work: remove the
   * sub-second part when there is one, and return the stamp in every case.
   */
  function DateHourCorrected(now: string): (r: string)
    ensures ' ' !in r && ':' !in r && '.' !in r
    ensures DateHour(now).Some? ==> r == DateHour(now).value
  {
    FriendlyChars(now);
    var d := Friendly(now);
    var i := Find(d, '.');
    if i >= 0 then d[..i] else d
  }

  /** On a whole second the corrected stamp is `date_hhmmss`, as with a fraction. */
  lemma DateHourCorrectedWholeSecond(date: string, hh: string, mm: string, ss: string)
    requires Field(date) && Field(hh) && Field(mm) && Field(ss)
    ensures DateHourCorrected(Rendered(date, hh, mm, ss)) == date + "_" + hh + mm + ss
  {
    FriendlyRendered(date, hh, mm, ss);
  }

  /** The file name of a capture of `url` at rendered time `now`, with the corrected stamp. */
  function CaptureFileName(url: string, now: string): (r: string)
    ensures EndsWith(r, ".png") && ':' !in r && '/' !in r
    ensures CaptureFileNameAsWritten(url, now).Some? ==> r == CaptureFileNameAsWritten(url, now).value
  {
    ScreenshotName(url, DateHourCorrected(now))
  }

  // ---------------------------------------------------------------------
  // URL normalisation (main, the enqueue loop)
  // ---------------------------------------------------------------------

  /** One line of the URL list as it is put on the queue. */
  function NormalizeUrl(url: string): (r: string)
    ensures StartsWith(r, "http")
    ensures r == url <==> StartsWith(url, "http")
    ensures r != url ==> r == "http://" + url
  {
    if StartsWith(url, "http") then url else "http://" + url
  }

  lemma NormalizeUrlIdempotent(url: string)
    ensures NormalizeUrl(NormalizeUrl(url)) == NormalizeUrl(url)
  {
  }

  /** Only the prefix is checked, so `httpfoo` is taken as it is, and a blank line becomes `http://`. */
  lemma NormalizeUrlExamples()
    ensures NormalizeUrl("httpfoo") == "httpfoo"
    ensures NormalizeUrl("example.com") == "http://example.com"
    ensures NormalizeUrl("") == "http://"
  {
    assert StartsWith("httpfoo", "http") by { assert "httpfoo"[..4] == "http"; }
    assert !StartsWith("example.com", "http") by { assert "example.com"[0] == 'e'; }
  }

  /** The items the enqueue loop puts on the queue for `urls`, in order. */
  function NormalizeAll(urls: seq<string>): (r: seq<string>)
    ensures |r| == |urls|
    ensures forall i :: 0 <= i < |urls| ==> r[i] == NormalizeUrl(urls[i])
  {
    if urls == [] then []
    else NormalizeAll(urls[..|urls| - 1]) + [NormalizeUrl(urls[|urls| - 1])]
  }

  /** Normalising a list file made of two parts queues the first part's items, then the second's. */
  lemma NormalizeAllConcat(a: seq<string>, b: seq<string>)
    ensures NormalizeAll(a + b) == NormalizeAll(a) + NormalizeAll(b)
  {
  }

  // ---------------------------------------------------------------------
  // Configuration (main's argument fallbacks, take_screenshot's resize test)
  // ---------------------------------------------------------------------

  /** The parsed command line; an absent option is `None`, `-v` is `verbose`. */
  datatype Args = Args(threads: Option<int>, height: Option<int>, width: Option<int>, verbose: bool)

  /** The number of worker threads `main` starts. */
  function ThreadCount(threads: Option<int>): (n: int)
    ensures n >= 1
    ensures threads.Some? && threads.value > 0 ==> n == threads.value
    ensures threads.None? || threads.value <= 0 ==> n == 1
  {
    if threads.Some? && threads.value > 0 then threads.value else 1
  }

  /** Both `-x` and `-y` given and both positive: only then does `main` set the globals. */
  predicate SizeGiven(args: Args)
  {
    args.height.Some? && args.width.Some? && args.height.value > 0 && args.width.value > 0
  }

  /** The globals `height` and `width` after `main` has set them, starting from `height0`, `width0`. */
  function Viewport(args: Args, height0: int, width0: int): (r: (int, int))
    ensures SizeGiven(args) ==> Resizes(r.0, r.1)
    ensures Resizes(r.0, r.1) ==> SizeGiven(args) || Resizes(height0, width0)
  {
    if SizeGiven(args) then (args.height.value, args.width.value) else (height0, width0)
  }

  /** `take_screenshot` resizes the window only when both dimensions are positive. */
  predicate Resizes(height: int, width: int)
  {
    height > 0 && width > 0
  }

  /**
   * From the program's initial globals (both 0), a window is resized exactly
   * when both dimensions were given and positive, and otherwise both stay 0.
   */
  lemma ResizeExactlyWhenSizeGiven(args: Args)
    ensures Resizes(Viewport(args, 0, 0).0, Viewport(args, 0, 0).1) <==> SizeGiven(args)
    ensures !SizeGiven(args) ==> Viewport(args, 0, 0) == (0, 0)
    ensures SizeGiven(args) ==> Viewport(args, 0, 0) == (args.height.value, args.width.value)
  {
  }

  /**
   * The module state `main` works on: the globals `height`, `width` and
   * `VERBOSE`, and the work queue, seen as the sequence of items put on it.
   */
  class Session {
    var height: int
    var width: int
    var verbose: bool
    var queue: seq<string>

    /** The module-level initialisation. */
    constructor ()
      ensures height == 0 && width == 0 && !verbose && queue == []
    {
      height, width, verbose, queue := 0, 0, false, [];
    }

    /**
     * The configuration and enqueue part of `main`, given the parsed
     * arguments and the lines of the URL list file. Returns the number of
     * worker threads started.
     */
    method Run(args: Args, urls: seq<string>) returns (numThreads: int)
      modifies this
      ensures numThreads == ThreadCount(args.threads)
      ensures verbose == (old(verbose) || args.verbose)
      ensures (height, width) == Viewport(args, old(height), old(width))
      ensures queue == old(queue) + NormalizeAll(urls)
    {
      numThreads := 1;
      if args.threads.Some? && args.threads.value > 0 {
        numThreads := args.threads.value;
      }
      if args.verbose {
        verbose := true;
      }

      ghost var height0, width0 := height, width;
      var n := 0;
      while n < numThreads
        invariant 0 <= n <= numThreads
        invariant verbose == (old(verbose) || args.verbose) && queue == old(queue)
        invariant (height, width) == if n == 0 then (height0, width0) else Viewport(args, height0, width0)
      {
        if args.height.Some? && args.width.Some? && args.height.value > 0 && args.width.value > 0 {
          height := args.height.value;
          width := args.width.value;
        }
        n := n + 1;
      }

      ghost var queue0 := queue;
      for i := 0 to |urls|
        invariant queue == queue0 + NormalizeAll(urls[..i])
        invariant verbose == (old(verbose) || args.verbose)
        invariant (height, width) == Viewport(args, old(height), old(width))
      {
        var url := urls[i];
        if !StartsWith(url, "http") {
          url := "http://" + url;
        }
        assert urls[..i + 1][..i] == urls[..i];
        queue := queue + [url];
      }
      assert urls[..|urls|] == urls;
    }
  }
}
