/** The upload filter and the stored file name: a file is accepted when the
    lower-cased text after the last `.` of its original name is `csv`,
    `xlsx` or `xls`; it is stored under the upload time, a `-`, and the
    original name. */
module FileUpload {

  // ---------------------------------------------------------------------
  // String helpers with the semantics of the JavaScript built-ins

  /** `s.split(sep)` for a one-character separator: the pieces between
      separators, always at least one (an empty string gives `[""]`). */
  function Split(s: string, sep: char): (parts: seq<string>)
    ensures |parts| >= 1
    ensures forall k :: 0 <= k < |parts| ==> sep !in parts[k]
  {
    if s == [] then [""]
    else
      var rest := Split(s[1..], sep);
      if s[0] == sep then [""] + rest else [[s[0]] + rest[0]] + rest[1..]
  }

  /** `parts.join(sep)`. */
  function Join(parts: seq<string>, sep: char): string
    requires |parts| >= 1
  {
    if |parts| == 1 then parts[0] else parts[0] + [sep] + Join(parts[1..], sep)
  }

  /** `parts.pop()` on a non-empty array: its last element. */
  function Last(parts: seq<string>): string
    requires |parts| >= 1
  {
    parts[|parts| - 1]
  }

  /** `toLowerCase` on one character; only ASCII letters change. */
  function LowerChar(c: char): char
  {
    if 'A' <= c <= 'Z' then (c as int + 32) as char else c
  }

  /** `s.toLowerCase()`. */
  function Lower(s: string): (t: string)
    ensures |t| == |s|
    ensures forall k :: 0 <= k < |s| ==> t[k] == LowerChar(s[k])
  {
    seq(|s|, k requires 0 <= k < |s| => LowerChar(s[k]))
  }

  /** Lower-casing twice is lower-casing once. */
  lemma LowerIdempotent(s: string)
    ensures Lower(Lower(s)) == Lower(s)
  {
    var t := Lower(s);
    forall k | 0 <= k < |s|
      ensures Lower(t)[k] == t[k]
    {
      assert t[k] == LowerChar(s[k]);
    }
  }

  function EndsWith(s: string, suffix: string): bool
  {
    |suffix| <= |s| && s[|s| - |suffix|..] == suffix
  }

  // ---------------------------------------------------------------------
  // The filter

  /** The extensions the filter accepts. */
  const Allowed: seq<string> := ["csv", "xlsx", "xls"]

  const RejectMessage: string := "Only CSV, XLSX, and XLS files are allowed"

  /** The filter's verdict: the file is kept, or the upload fails with an error. */
  datatype Verdict = Accept | Reject(message: string)

  /** `originalname.split('.').pop().toLowerCase()`. */
  function Extension(originalname: string): string
  {
    Lower(Last(Split(originalname, '.')))
  }

  /** The server-side filter. */
  function FileFilter(originalname: string): Verdict
  {
    if Extension(originalname) in Allowed then Accept else Reject(RejectMessage)
  }

  /** The client-side check before upload: the same split, pop and
      lower-casing, compared with each allowed extension in turn. */
  function ClientAccepts(name: string): bool
  {
    var ext := Extension(name);
    ext == "csv" || ext == "xlsx" || ext == "xls"
  }

  /** The name the file is stored under: the decimal upload time in
      milliseconds, a `-`, and the original name. */
  function StoredFileName(timestamp: nat, originalname: string): string
  {
    Decimal(timestamp) + "-" + originalname
  }

  // ---------------------------------------------------------------------
  // Decimal numerals

  function Digit(d: nat): char
    requires d < 10
  {
    ('0' as int + d) as char
  }

  function DigitValue(c: char): nat
  {
    if '0' <= c <= '9' then c as int - '0' as int else 0
  }

  predicate IsDigit(c: char)
  {
    '0' <= c <= '9'
  }

  /** The shortest decimal numeral of `n`, as JavaScript prints an integer. */
  function Decimal(n: nat): (s: string)
    ensures |s| >= 1
    ensures forall k :: 0 <= k < |s| ==> IsDigit(s[k])
  {
    if n < 10 then [Digit(n)] else Decimal(n / 10) + [Digit(n % 10)]
  }

  /** The value of a string of decimal digits. */
  function ParseDecimal(s: string): nat
  {
    if s == [] then 0 else ParseDecimal(s[..|s| - 1]) * 10 + DigitValue(s[|s| - 1])
  }

  /** The position of the first `c` in `s`, or `|s|` when there is none. */
  function IndexOf(s: string, c: char): (i: nat)
    ensures i <= |s|
    ensures forall k :: 0 <= k < i ==> s[k] != c
    ensures i < |s| ==> s[i] == c
  {
    if s == [] then 0 else if s[0] == c then 0 else 1 + IndexOf(s[1..], c)
  }

  /** Reads a stored file name back: the number before the first `-`, and
      everything after it. */
  function ParseStoredName(stored: string): (nat, string)
  {
    var i := IndexOf(stored, '-');
    (ParseDecimal(stored[..i]), if i < |stored| then stored[i + 1..] else "")
  }

  // ---------------------------------------------------------------------
  // Properties of split and pop

  /** Joining the pieces again with the separator gives back the string. */
  lemma {:induction false} SplitJoin(s: string, sep: char)
    ensures Join(Split(s, sep), sep) == s
  {
    if s != [] {
      SplitJoin(s[1..], sep);
      var rest := Split(s[1..], sep);
      if s[0] == sep {
        assert Split(s, sep) == [""] + rest;
        assert ([""] + rest)[1..] == rest;
      } else {
        var parts := Split(s, sep);
        assert parts == [[s[0]] + rest[0]] + rest[1..];
        if |rest| == 1 {
          assert parts == [[s[0]] + rest[0]];
        } else {
          assert parts[1..] == rest[1..];
          assert Join(rest, sep) == rest[0] + [sep] + Join(rest[1..], sep);
        }
      }
    }
  }

  /** A string without the separator splits into itself alone. */
  lemma {:induction false} SplitNoSep(s: string, sep: char)
    requires sep !in s
    ensures Split(s, sep) == [s]
  {
    if s != [] {
      SplitNoSep(s[1..], sep);
      assert [s[0]] + s[1..] == s;
    }
  }

  /** The last piece of `pre + [sep] + post` is `post` when `post` has no separator. */
  lemma {:induction false} LastAfterSep(pre: string, sep: char, post: string)
    requires sep !in post
    ensures Last(Split(pre + [sep] + post, sep)) == post
  {
    var s := pre + [sep] + post;
    if pre == [] {
      SplitNoSep(post, sep);
      assert s[1..] == post;
    } else {
      LastAfterSep(pre[1..], sep, post);
      assert s[1..] == pre[1..] + [sep] + post;
      assert s[1..][|pre| - 1] == sep;
      SplitAtSep(s[1..], sep);
    }
  }

  /** A string holding the separator splits into at least two pieces. */
  lemma {:induction false} SplitAtSep(s: string, sep: char)
    requires sep in s
    ensures |Split(s, sep)| >= 2
  {
    if s[0] != sep {
      assert sep in s[1..] by {
        var k :| 0 <= k < |s| && s[k] == sep;
        assert s[1..][k - 1] == sep;
      }
      SplitAtSep(s[1..], sep);
    }
  }

  /** The last piece is the text after the last separator, or the whole
      string when it has none. */
  lemma {:induction false} LastIsSuffix(s: string, sep: char)
    ensures sep !in s ==> Last(Split(s, sep)) == s
    ensures sep in s ==> exists pre :: s == pre + [sep] + Last(Split(s, sep))
  {
    if sep !in s {
      SplitNoSep(s, sep);
    } else {
      var parts := Split(s, sep);
      SplitJoin(s, sep);
      JoinLast(parts, sep);
    }
  }

  /** A join of two or more pieces ends with the separator and the last piece. */
  lemma {:induction false} JoinLast(parts: seq<string>, sep: char)
    requires |parts| >= 1
    ensures |parts| >= 2 ==> exists pre :: Join(parts, sep) == pre + [sep] + Last(parts)
    ensures |parts| == 1 ==> Join(parts, sep) == Last(parts)
  {
    if |parts| >= 2 {
      JoinLast(parts[1..], sep);
      var tail := parts[1..];
      assert Last(tail) == Last(parts);
      if |tail| >= 2 {
        var pre :| Join(tail, sep) == pre + [sep] + Last(tail);
        assert Join(parts, sep) == (parts[0] + [sep] + pre) + [sep] + Last(parts);
      } else {
        assert Join(parts, sep) == parts[0] + [sep] + Last(parts);
      }
    }
  }

  /** Lower-casing keeps every `.` and makes none. */
  lemma LowerDots(s: string)
    ensures ('.' in s) <==> ('.' in Lower(s))
  {
    if '.' in s {
      var k :| 0 <= k < |s| && s[k] == '.';
      assert Lower(s)[k] == '.';
    }
    if '.' in Lower(s) {
      var k :| 0 <= k < |s| && Lower(s)[k] == '.';
      assert s[k] == '.';
    }
  }

  // ---------------------------------------------------------------------
  // Properties of the filter

  /** The extension of `pre.post` is `post` lower-cased when `post` has no `.`. */
  lemma ExtensionAfterDot(pre: string, post: string)
    requires '.' !in post
    ensures Extension(pre + "." + post) == Lower(post)
  {
    LastAfterSep(pre, '.', post);
  }

  /** The extension of a name without `.` is the whole name lower-cased. */
  lemma ExtensionNoDot(name: string)
    requires '.' !in name
    ensures Extension(name) == Lower(name)
  {
    SplitNoSep(name, '.');
  }

  /** The extension is the lower-cased name itself when there is no `.`,
      and otherwise what the lower-cased name ends with after a `.`. */
  lemma ExtensionIsSuffix(name: string)
    ensures '.' !in name ==> Extension(name) == Lower(name)
    ensures '.' in name ==> EndsWith(Lower(name), "." + Extension(name))
  {
    var last := Last(Split(name, '.'));
    LastIsSuffix(name, '.');
    if '.' in name {
      var pre :| name == pre + ['.'] + last;
      LowerDotSuffix(pre, last);
    }
  }

  /** The extension holds no upper-case letter and is unchanged by a
      second lower-casing, so the filter compares case-blind. */
  lemma ExtensionIsLowerCase(name: string)
    ensures forall k :: 0 <= k < |Extension(name)| ==> !('A' <= Extension(name)[k] <= 'Z')
    ensures Lower(Extension(name)) == Extension(name)
  {
    LowerIdempotent(Last(Split(name, '.')));
  }

  /** Lower-casing `pre.last` leaves it ending with `.` and `last` lower-cased. */
  lemma LowerDotSuffix(pre: string, last: string)
    ensures EndsWith(Lower(pre + ['.'] + last), "." + Lower(last))
  {
    var low, tail := Lower(pre + ['.'] + last), "." + Lower(last);
    assert |low| == |pre| + 1 + |last|;
    forall k | 0 <= k < |tail|
      ensures low[|pre| + k] == tail[k]
    {
      if k > 0 {
        assert (pre + ['.'] + last)[|pre| + k] == last[k - 1];
      }
    }
    assert low[|pre|..] == tail;
  }

  lemma SuffixIsAccepted(name: string, e: string)
    requires e in Allowed && (Lower(name) == e || EndsWith(Lower(name), "." + e))
    ensures Extension(name) == e
  {
    assert '.' !in e;
    if Lower(name) == e {
      LowerDots(name);
      ExtensionNoDot(name);
    } else {
      var cut := |name| - |e| - 1;
      var pre, post := name[..cut], name[cut + 1..];
      assert Lower(name)[cut..] == "." + e;
      assert name[cut] == '.' by {
        assert Lower(name)[cut] == '.';
      }
      assert Lower(post) == e;
      LowerDots(post);
      assert name == pre + "." + post;
      ExtensionAfterDot(pre, post);
    }
  }

  /** A name is accepted exactly when, lower-cased, it is an allowed
      extension on its own or ends with `.` and an allowed extension:
      matching ignores case and only the final extension counts. */
  lemma FilterAcceptsIff(name: string)
    ensures FileFilter(name) == Accept <==>
            exists e :: e in Allowed && (Lower(name) == e || EndsWith(Lower(name), "." + e))
  {
    if FileFilter(name) == Accept {
      ExtensionIsSuffix(name);
    }
    if exists e :: e in Allowed && (Lower(name) == e || EndsWith(Lower(name), "." + e)) {
      var e :| e in Allowed && (Lower(name) == e || EndsWith(Lower(name), "." + e));
      SuffixIsAccepted(name, e);
    }
  }

  /** Rejection carries the error message and never accepts. */
  lemma RejectionMessage(name: string)
    ensures FileFilter(name) != Accept ==> FileFilter(name) == Reject("Only CSV, XLSX, and XLS files are allowed")
    ensures FileFilter(name) == Accept <==> Extension(name) in Allowed
  {
  }

  /** Worked cases: upper-case extensions are accepted, and only the final
      extension counts. */
  lemma AcceptsUpperCase()
    ensures FileFilter("Leads.CSV") == Accept
  {
    ExtensionAfterDot("Leads", "CSV");
    assert "Leads" + "." + "CSV" == "Leads.CSV";
    var low := Lower("CSV");
    assert low[0] == 'c' && low[1] == 's' && low[2] == 'v';
    assert low == "csv";
  }

  lemma OnlyFinalExtensionCounts()
    ensures FileFilter("a.exe.csv") == Accept
    ensures FileFilter("a.csv.exe") != Accept
  {
    ExtensionAfterDot("a.exe", "csv");
    assert "a.exe" + "." + "csv" == "a.exe.csv";
    var low := Lower("csv");
    assert low[0] == 'c' && low[1] == 's' && low[2] == 'v';
    assert low == "csv";
    ExtensionAfterDot("a.csv", "exe");
    assert "a.csv" + "." + "exe" == "a.csv.exe";
    var low' := Lower("exe");
    assert low'[0] == 'e';
    assert low' !in Allowed;
  }

  /** A name without `.` is its own extension, so a file named `csv` passes. */
  lemma BareExtensionAccepted()
    ensures FileFilter("csv") == Accept
  {
    ExtensionNoDot("csv");
    var low := Lower("csv");
    assert low[0] == 'c' && low[1] == 's' && low[2] == 'v';
    assert low == "csv";
  }

  /** The client check accepts exactly the names the server filter accepts. */
  lemma ClientMatchesServer(name: string)
    ensures ClientAccepts(name) <==> FileFilter(name) == Accept
  {
  }

  // ---------------------------------------------------------------------
  // Properties of the stored file name

  lemma {:induction false} DecimalRoundTrip(n: nat)
    ensures ParseDecimal(Decimal(n)) == n
  {
    if n >= 10 {
      DecimalRoundTrip(n / 10);
      var s := Decimal(n);
      assert s[..|s| - 1] == Decimal(n / 10);
    }
  }

  /** The stored name ends with `-` and the original name, starts with the
      upload time in decimal, and reads back to both. */
  lemma StoredNameRoundTrip(timestamp: nat, originalname: string)
    ensures EndsWith(StoredFileName(timestamp, originalname), "-" + originalname)
    ensures ParseStoredName(StoredFileName(timestamp, originalname)) == (timestamp, originalname)
  {
    var d := Decimal(timestamp);
    var s := StoredFileName(timestamp, originalname);
    assert s[|s| - |"-" + originalname|..] == "-" + originalname;
    assert forall k :: 0 <= k < |d| ==> s[k] == d[k] && s[k] != '-';
    assert s[|d|] == '-';
    assert IndexOf(s, '-') == |d|;
    assert s[..|d|] == d;
    assert s[|d| + 1..] == originalname;
    DecimalRoundTrip(timestamp);
  }
}
