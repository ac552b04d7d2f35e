/**
 * The two file-name rules of the batch: an order file is named by seventeen digits and
 * `.txt`, and an archived copy inserts `_` and the date before the extension.
 */
module FileNames {
  import opened Wrappers
  import opened Dates


  /** `/^\d{17}\.txt$/`. */
  predicate IsOrderFileName(name: string)
  {
    && |name| == 21
    && (forall i :: 0 <= i < 17 ==> IsDigit(name[i]))
    && name[17..] == ".txt"
  }

  /**
   * Seventeen digits and `.txt` make an order file name, and nothing else does: a name
   * of digits followed by `.txt` is one exactly when there are seventeen digits.
   */
  lemma OrderFileNameOf(digits: string)
    requires forall i :: 0 <= i < |digits| ==> IsDigit(digits[i])
    ensures IsOrderFileName(digits + ".txt") <==> |digits| == 17
  {
    var name := digits + ".txt";
    if |digits| == 17 {
      assert name[17..] == ".txt";
      forall i | 0 <= i < 17
        ensures IsDigit(name[i])
      {
        assert name[i] == digits[i];
      }
    }
  }

  /** The position of the last `.` of `s`, if any. */
  function LastDot(s: string): (p: Option<nat>)
    ensures p.Some? ==> p.value < |s| && s[p.value] == '.' && '.' !in s[p.value + 1..]
    ensures p.None? ==> '.' !in s
  {
    if s == [] then None
    else if s[|s| - 1] == '.' then Some(|s| - 1)
    else
      var p := LastDot(s[..|s| - 1]);
      assert s == s[..|s| - 1] + [s[|s| - 1]];
      if p.Some? then
        assert s[p.value + 1..] == s[..|s| - 1][p.value + 1..] + [s[|s| - 1]];
        p
      else p
  }

  /**
   * Where `/\.[^/.]+$/` matches: at the last `.`, when at least one character follows
   * it and none of those is a `/`.
   */
  function ExtensionStart(name: string): (p: Option<nat>)
    ensures p.Some? ==> p.value + 1 < |name| && name[p.value] == '.'
                        && '.' !in name[p.value + 1..] && '/' !in name[p.value + 1..]
    ensures (&& LastDot(name).Some? && LastDot(name).value + 1 < |name|
             && '/' !in name[LastDot(name).value + 1..]) ==> p == LastDot(name)
    ensures LastDot(name).None? ==> p.None?
  {
    match LastDot(name)
    case Some(p) => if p + 1 < |name| && '/' !in name[p + 1..] then Some(p) else None
    case None => None
  }

  /**
   * `${fileNameWithoutExtension}_${dateStr}${fileExtension}`; `None` where the source's
   * `match(...)[0]` throws because the name has no extension.
   */
  function ArchivedFileName(name: string, dateStr: string): (r: Option<string>)
    ensures r.Some? <==> ExtensionStart(name).Some?
    ensures r.Some? ==>
              var p := ExtensionStart(name).value;
              && |r.value| == |name| + 1 + |dateStr|
              && r.value[..p] == name[..p] && r.value[p] == '_'
              && r.value[p + 1..p + 1 + |dateStr|] == dateStr
              && r.value[p + 1 + |dateStr|..] == name[p..]
  {
    match ExtensionStart(name)
    case Some(p) => Some(name[..p] + "_" + dateStr + name[p..])
    case None => None
  }

  /** The last `.` is the one after which no `.` follows. */
  lemma {:induction false} LastDotIs(s: string, q: nat)
    requires q < |s| && s[q] == '.' && '.' !in s[q + 1..]
    ensures LastDot(s) == Some(q)
  {
    var n := |s| - 1;
    if q < n {
      assert s[n] == s[q + 1..][n - q - 1];
      assert s[..n][q + 1..] == s[q + 1..][..n - q - 1];
      LastDotIs(s[..n], q);
    }
  }

  /** An order file's extension is its `.txt`, so its archived name is the digits, the date and `.txt`. */
  lemma OrderFileArchive(name: string, dateStr: string)
    requires IsOrderFileName(name)
    ensures ExtensionStart(name) == Some(17)
    ensures ArchivedFileName(name, dateStr) == Some(name[..17] + "_" + dateStr + ".txt")
  {
    assert name[17] == '.' && name[18..] == "txt";
    assert name[18..] == name[17..][1..];
    LastDotIs(name, 17);
  }

  /**
   * No archived name looks like an order file, whatever the date: the `_` lands among
   * the seventeen digits or inside `.txt`. Archived copies are never picked up again as
   * orders.
   */
  lemma ArchivedNameIsNeverOrderFile(name: string, dateStr: string)
    requires ArchivedFileName(name, dateStr).Some?
    ensures !IsOrderFileName(ArchivedFileName(name, dateStr).value)
  {
    var p := ExtensionStart(name).value;
    var a := ArchivedFileName(name, dateStr).value;
    assert a == name[..p] + "_" + dateStr + name[p..];
    assert a[p] == '_';
    if |a| == 21 && p >= 17 {
      assert a[17..][p - 17] == '_';
    }
  }

  /**
   * The archived name keeps the original's extension as its own, and the original name
   * can be read back from it when the date holds no `.` or `/`.
   */
  lemma ArchiveKeepsExtension(name: string, dateStr: string)
    requires ExtensionStart(name).Some? && '.' !in dateStr && '/' !in dateStr
    ensures var p := ExtensionStart(name).value;
            var a := ArchivedFileName(name, dateStr).value;
            && ExtensionStart(a) == Some(p + 1 + |dateStr|)
            && a[..p] + a[p + 1 + |dateStr|..] == name
  {
    var p := ExtensionStart(name).value;
    var a := ArchivedFileName(name, dateStr).value;
    var q := p + 1 + |dateStr|;
    assert a == name[..p] + "_" + dateStr + name[p..];
    assert a[..p] == name[..p];
    assert a[q..] == name[p..];
    assert a[q + 1..] == name[p + 1..];
    LastDotIs(a, q);
    assert name[..p] + name[p..] == name;
  }
}
