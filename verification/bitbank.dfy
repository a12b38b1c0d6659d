/** The string handling of `bitbank_get_trades`: the dashed date that names
    the output file, the compact `YYYYMMDD` date that goes into the request
    URL, and the output path. */
module Bitbank {
  import opened Wrappers
  import Text

  /** `s` with every `c` deleted. */
  function Remove(s: string, c: char): (r: string)
    ensures c !in r
  {
    if |s| == 0 then ""
    else (if s[0] == c then "" else [s[0]]) + Remove(s[1..], c)
  }

  /** Replacing a one-character pattern by nothing deletes that character. */
  lemma {:induction false} ReplaceDeletes(s: string, c: char)
    ensures Text.Replace(s, [c], "") == Remove(s, c)
  {
    if |s| > 0 {
      ReplaceDeletes(s[1..], c);
      assert s[..1] == [s[0]];
    }
  }

  /** Deleting `-` after turning every `/` into `-` is deleting both. */
  lemma {:induction false} DashThenRemove(s: string)
    ensures Remove(Text.Replace(s, "/", "-"), '-') == Remove(Remove(s, '/'), '-')
  {
    if |s| > 0 {
      DashThenRemove(s[1..]);
      assert s[..1] == [s[0]];
      assert Text.Replace(s, "/", "-") == (if s[0] == '/' then "-" else [s[0]]) + Text.Replace(s[1..], "/", "-");
      RemoveAppend(if s[0] == '/' then "-" else [s[0]], Text.Replace(s[1..], "/", "-"), '-');
      RemoveAppend(if s[0] == '/' then "" else [s[0]], Remove(s[1..], '/'), '-');
    }
  }

  lemma {:induction false} RemoveAppend(a: string, b: string, c: char)
    ensures Remove(a + b, c) == Remove(a, c) + Remove(b, c)
  {
    if |a| > 0 {
      assert (a + b)[1..] == a[1..] + b;
      RemoveAppend(a[1..], b, c);
    } else {
      assert a + b == b;
    }
  }

  /** `dt`: the date with every `/` replaced by `-`. */
  function Dashed(stDate: string): (r: string)
    ensures '/' !in r
    ensures |r| == |stDate|
    ensures forall i :: 0 <= i < |stDate| ==> r[i] == (if stDate[i] == '/' then '-' else stDate[i])
  {
    Text.ReplaceRemovesChar(stDate, '/', "-");
    Text.ReplaceCharPointwise(stDate, '/', '-');
    Text.Replace(stDate, "/", "-")
  }

  /** The date of the request URL: `/`, `-` and ` 00:00:00` removed. */
  function Compact(stDate: string): string
  {
    Text.Replace(Text.Replace(Text.Replace(stDate, "/", ""), "-", ""), Midnight, "")
  }

  /** The compact date holds neither `/` nor `-`, whatever the input. */
  lemma CompactIsBare(stDate: string)
    ensures '/' !in Compact(stDate) && '-' !in Compact(stDate)
  {
    var a := Text.Replace(stDate, "/", "");
    Text.ReplaceRemovesChar(stDate, '/', "");
    var b := Text.Replace(a, "-", "");
    Text.ReplaceRemovesChar(a, '-', "");
    Text.ReplaceChars(a, "-", "");
    Text.ReplaceChars(b, Midnight, "");
  }

  /** The request asks for the day the file is named after: compacting the
      dashed date gives the same compact date as compacting the input. */
  lemma CompactOfDashed(stDate: string)
    ensures Compact(Dashed(stDate)) == Compact(stDate)
  {
    var d := Dashed(stDate);
    Text.NoCharNoOccurrence(d, "/", '/');
    Text.ReplaceAbsent(d, "/", "");
    ReplaceDeletes(d, '-');
    ReplaceDeletes(stDate, '/');
    ReplaceDeletes(Remove(stDate, '/'), '-');
    DashThenRemove(stDate);
  }

  /** Both spellings of the first day of 2023 compact to `20230101`. */
  lemma CompactExamples()
    ensures Compact("2023/01/01") == "20230101"
    ensures Compact("2023-01-01") == "20230101"
  {
    CompactSlashed();
    CompactDashed();
  }

  lemma CompactSlashed()
    ensures Compact("2023/01/01") == "20230101"
  {
    assert "2023/01/01" == "2023" + ("/" + ("01" + ("/" + "01")));
    ExampleSeparatorsRemoved('/');
    CompactDigits();
  }

  /** The compact date of the example is left alone by the last two
      replacements. */
  lemma CompactDigits()
    ensures Text.Replace("20230101", "-", "") == "20230101"
    ensures Text.Replace("20230101", Midnight, "") == "20230101"
  {
    DigitsOnly("20230101");
    NoDash("20230101");
    NoMidnight("20230101");
  }

  /** A string of digits holds no separator and no space. */
  lemma DigitsOnly(s: string)
    requires forall i :: 0 <= i < |s| ==> '0' <= s[i] <= '9'
    ensures '-' !in s && '/' !in s && ' ' !in s
  {
  }

  /** Deleting either separator from the example date joins its fields. */
  lemma ExampleSeparatorsRemoved(c: char)
    requires c == '/' || c == '-'
    ensures Text.Replace("2023" + ([c] + ("01" + ([c] + "01"))), [c], "") == "20230101"
  {
    ReplaceDeletes("2023" + ([c] + ("01" + ([c] + "01"))), c);
    assert "2023" + ("01" + "01") == "20230101";
    RemoveSeparators("2023", "01", "01", c);
  }

  /** Deleting the separator of a `y c m c d` date joins its fields. */
  lemma RemoveSeparators(y: string, m: string, d: string, c: char)
    requires c !in y && c !in m && c !in d
    ensures Remove(y + ([c] + (m + ([c] + d))), c) == y + (m + d)
  {
    RemoveAbsent(d, c);
    RemoveLeading([c] + d, c);
    assert ([c] + d)[1..] == d;
    RemoveAppend(m, [c] + d, c);
    RemoveAbsent(m, c);
    var tail := m + ([c] + d);
    RemoveLeading([c] + tail, c);
    assert ([c] + tail)[1..] == tail;
    RemoveAppend(y, [c] + tail, c);
    RemoveAbsent(y, c);
  }

  /** A leading separator is deleted. */
  lemma RemoveLeading(s: string, c: char)
    requires |s| > 0 && s[0] == c
    ensures Remove(s, c) == Remove(s[1..], c)
  {
  }

  lemma CompactDashed()
    ensures Compact("2023-01-01") == "20230101"
  {
    assert "2023-01-01" == "2023" + ("-" + ("01" + ("-" + "01")));
    ExampleSeparatorsRemoved('-');
    NoSlash("2023-01-01");
    CompactDigits();
  }

  /** The midnight suffix that the compact date drops. */
  const Midnight := " 00:00:00"

  /** A midnight time after a date without spaces does not change the
      compact date. */
  lemma CompactMidnight(d: string)
    requires ' ' !in d
    ensures Compact(d + Midnight) == Compact(d)
  {
    var y := Remove(Remove(d, '/'), '-');
    SeparatorsDeleted(d);
    SeparatorsDeleted(d + Midnight);
    SeparatorsDeletedAppend(d);
    RemoveKeepsAbsent(d, '/', ' ');
    RemoveKeepsAbsent(Remove(d, '/'), '-', ' ');
    MidnightDropped(y);
    NoMidnight(y);
  }

  /** The first two replacements of `Compact` delete `/` and `-`. */
  lemma SeparatorsDeleted(s: string)
    ensures Text.Replace(Text.Replace(s, "/", ""), "-", "") == Remove(Remove(s, '/'), '-')
  {
    ReplaceDeletes(s, '/');
    ReplaceDeletes(Remove(s, '/'), '-');
  }

  /** Deleting separators leaves the midnight suffix alone. */
  lemma SeparatorsDeletedAppend(d: string)
    ensures Remove(Remove(d + Midnight, '/'), '-') == Remove(Remove(d, '/'), '-') + Midnight
  {
    RemoveAppend(d, Midnight, '/');
    RemoveAbsent(Midnight, '/');
    RemoveAppend(Remove(d, '/'), Midnight, '-');
    RemoveAbsent(Midnight, '-');
  }

  /** The suffix is dropped after a prefix without spaces. */
  lemma MidnightDropped(y: string)
    requires ' ' !in y
    ensures Text.Replace(y + Midnight, Midnight, "") == y
  {
    Text.ReplaceNoStart(y, Midnight, Midnight, "");
    assert Text.Replace(Midnight, Midnight, "") == "";
  }

  /** Deleting characters never introduces one. */
  lemma {:induction false} RemoveKeepsAbsent(s: string, c: char, x: char)
    requires x !in s
    ensures x !in Remove(s, c)
  {
    if |s| > 0 {
      RemoveKeepsAbsent(s[1..], c, x);
    }
  }

  /** Deleting a character that does not occur changes nothing. */
  lemma {:induction false} RemoveAbsent(s: string, c: char)
    requires c !in s
    ensures Remove(s, c) == s
  {
    if |s| > 0 {
      RemoveAbsent(s[1..], c);
    }
  }

  lemma NoMidnight(s: string)
    requires ' ' !in s
    ensures Text.Replace(s, Midnight, "") == s
  {
    Text.NoCharNoOccurrence(s, Midnight, ' ');
    Text.ReplaceAbsent(s, Midnight, "");
  }

  lemma NoDash(s: string)
    requires '-' !in s && '/' !in s
    ensures Text.Replace(s, "-", "") == s
    ensures Text.Replace(s, "/", "") == s
  {
    Text.NoCharNoOccurrence(s, "-", '-');
    Text.ReplaceAbsent(s, "-", "");
    Text.NoCharNoOccurrence(s, "/", '/');
    Text.ReplaceAbsent(s, "/", "");
  }

  lemma NoSlash(s: string)
    requires '/' !in s
    ensures Text.Replace(s, "/", "") == s
  {
    Text.NoCharNoOccurrence(s, "/", '/');
    Text.ReplaceAbsent(s, "/", "");
  }

  /** `bitbank/trades/{symbol}`, the directory used when none is given. */
  function DefaultOutputDir(symbol: string): string
  {
    "bitbank/trades/" + symbol
  }

  /** The request URL for the day's transactions. */
  function RequestUrl(symbol: string, stDate: string): string
  {
    "https://public.bitbank.cc/" + symbol + "/transactions/" + Compact(stDate)
  }

  /** `{output_dir}/{dt}.csv`, with the default directory when none is given. */
  function OutputPath(outputDir: Option<string>, symbol: string, stDate: string): string
  {
    outputDir.GetOr(DefaultOutputDir(symbol)) + "/" + Dashed(stDate) + ".csv"
  }

  /** The file lies directly in the output directory, named by the dashed
      date, and the request asks for the same day in compact form. */
  lemma OutputPathInDir(outputDir: Option<string>, symbol: string, stDate: string)
    ensures var dir := if outputDir.Some? then outputDir.value else "bitbank/trades/" + symbol;
            var name := OutputPath(outputDir, symbol, stDate)[|dir| + 1..];
            && OutputPath(outputDir, symbol, stDate) == dir + "/" + name
            && '/' !in name
            && name == Dashed(stDate) + ".csv"
            && Compact(name[..|name| - 4]) == Compact(stDate)
            && RequestUrl(symbol, stDate) == "https://public.bitbank.cc/" + symbol + "/transactions/" + Compact(name[..|name| - 4])
  {
    var dir := if outputDir.Some? then outputDir.value else "bitbank/trades/" + symbol;
    var name := Dashed(stDate) + ".csv";
    var path := OutputPath(outputDir, symbol, stDate);
    assert path == dir + "/" + name by { Regroup(dir, "/", Dashed(stDate), ".csv"); }
    assert path[|dir| + 1..] == name;
    assert name[..|name| - 4] == Dashed(stDate);
    assert '/' !in name by { assert '/' !in ".csv"; }
    CompactOfDashed(stDate);
  }

  lemma Regroup(a: string, b: string, c: string, d: string)
    ensures a + b + c + d == (a + b) + (c + d)
  {
  }
}
