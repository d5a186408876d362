/**
  Model of `process_sat_version`: bring a Satellite version string into the
  form the allocation endpoint accepts, given the list of valid values.

  The source reassigns the version step by step and sorts the caller's list
  in place; here the list is an array that `ProcessSatVersion` may modify,
  and the function `Process` gives the result and the list's new contents.
 */
module SatVersion {
  import opened Text
  import opened StableSort

  /**
    The text the sort key is read from: after the last '-', then after the
    last '.'. It is the longest tail of the entry that holds neither
    separator: the whole entry, or a tail right after a '-' or a '.'.
   */
  function KeyDigits(entry: string): (k: string)
    ensures '-' !in k && '.' !in k
    ensures |k| <= |entry| && entry[|entry| - |k|..] == k
    ensures |k| < |entry| ==> entry[|entry| - |k| - 1] == '-' || entry[|entry| - |k| - 1] == '.'
  {
    var release := LastField(entry, '-');
    var k := LastField(release, '.');
    assert forall c :: c in k ==> c in release;
    assert entry[|entry| - |k|..] == release[|release| - |k|..];
    assert |k| < |release| ==> entry[|entry| - |k| - 1] == release[|release| - |k| - 1];
    k
  }

  /** `int(...)` of the key text raises unless it is a string of digits. */
  predicate HasNumericKey(entry: string) {
    IsDigits(KeyDigits(entry))
  }

  predicate AllNumericKeys(s: seq<string>) {
    forall i :: 0 <= i < |s| ==> HasNumericKey(s[i])
  }

  /**
    The sort key `int(i.split('-')[-1].split('.')[-1])`: 14 for "sat-6.14".
    Where `int` succeeds the key is non-negative.
   */
  function SortKey(entry: string): (key: int)
    ensures HasNumericKey(entry) ==> key >= 0
  {
    DecimalValue(KeyDigits(entry))
  }

  /** For an entry `name-major.minor` the key is read from `minor` alone. */
  lemma KeyDigitsOfVersion(name: string, major: string, minor: string)
    requires '-' !in name && '-' !in major && '-' !in minor
    requires '.' !in major && '.' !in minor
    ensures KeyDigits(name + "-" + major + "." + minor) == minor
  {
    var release := major + "." + minor;
    assert '-' !in release by {
      assert forall i :: 0 <= i < |release| ==> release[i] == '.' || release[i] in major || release[i] in minor;
    }
    assert Join([name, release], '-') == name + "-" + major + "." + minor;
    SplitJoin([name, release], '-');
    assert Join([major, minor], '.') == release;
    SplitJoin([major, minor], '.');
  }

  /** For an entry `name-major.minor` whose minor version is digits, the key is that number. */
  lemma SortKeyOfVersion(name: string, major: string, minor: string)
    requires '-' !in name && '-' !in major && '-' !in minor
    requires '.' !in major && IsDigits(minor)
    ensures var entry := name + "-" + major + "." + minor;
      HasNumericKey(entry) && SortKey(entry) == DecimalValue(minor)
  {
    KeyDigitsOfVersion(name, major, minor);
  }

  /** `SortKeyOfVersion` for an entry given whole, as a literal is. */
  lemma KeyOfEntry(entry: string, name: string, major: string, minor: string)
    requires entry == name + "-" + major + "." + minor
    requires '-' !in name && '-' !in major && '-' !in minor
    requires '.' !in major && IsDigits(minor)
    ensures HasNumericKey(entry) && SortKey(entry) == DecimalValue(minor)
  {
    SortKeyOfVersion(name, major, minor);
  }

  /** The key of "sat-6.14" is 14. */
  lemma SortKeyExample()
    ensures HasNumericKey("sat-6.14") && SortKey("sat-6.14") == 14
  {
    KeyOfEntry("sat-6.14", "sat", "6", "14");
    TwoDigitValue('1', '4');
  }

  lemma OldMajorKey()
    ensures HasNumericKey("sat-6.16") && SortKey("sat-6.16") == 16
  {
    KeyOfEntry("sat-6.16", "sat", "6", "16");
    TwoDigitValue('1', '6');
  }

  lemma NewMajorKey()
    ensures HasNumericKey("sat-7.0") && SortKey("sat-7.0") == 0
  {
    KeyOfEntry("sat-7.0", "sat", "7", "0");
  }

  /**
    The key compares minor versions only: 'sat-6.16' outranks 'sat-7.0', so
    against that list an unknown version falls back to 'sat-6.16'.
   */
  lemma FallbackComparesMinorOnly()
    ensures SortKey("sat-6.16") > SortKey("sat-7.0")
    ensures Process("sat-7.1", ["sat-6.16", "sat-7.0"]).version == "sat-6.16"
  {
    OldMajorKey();
    NewMajorKey();
    UnknownShortVersion();
    FallbackTwoEntries("sat-7.1", "sat-6.16", "sat-7.0");
  }

  lemma UnknownShortVersion()
    ensures NeedsFallback("sat-7.1", ["sat-6.16", "sat-7.0"])
  {
  }

  /** Against two entries, the fallback picks the first unless the second has a greater key. */
  lemma FallbackTwoEntries(version: string, first: string, second: string)
    requires NeedsFallback(version, [first, second])
    ensures Process(version, [first, second]).version ==
      if SortKey(first) >= SortKey(second) then first else second
  {
    var s := [first, second];
    assert s[1..] == [second] && [second][1..] == [];
    assert SortDescending([second], SortKey) == [second];
    assert SortDescending(s, SortKey) == Insert(first, [second], SortKey);
  }

  /**
    `sat_version` with its Z-stream removed when it is longer than 8
    characters: always a prefix of it, and the whole of it when short.
   */
  function WithoutZStream(version: string): (w: string)
    ensures w <= version
    ensures |version| <= 8 ==> w == version
  {
    if |version| > 8 then
      var parts := Split(version, '.');
      JoinSplit(version, '.');
      if |parts| > 2 then JoinAppend(parts, '.', 2); Join(parts[..2], '.')
      else
        assert parts[..|parts|] == parts;
        Join(parts[..|parts|], '.')
    else version
  }

  /**
    A version longer than 8 characters is cut to its first two '.'-separated
    parts: what is kept is a prefix of it, splits into exactly those parts, and
    is the whole version when it had at most one '.'. Shorter versions stay.
   */
  lemma WithoutZStreamKeepsTwoParts(version: string)
    ensures var w := WithoutZStream(version);
      var parts := Split(version, '.');
      && w <= version
      && (|version| <= 8 || |parts| <= 2 ==> w == version)
      && (|version| > 8 ==> Split(w, '.') == parts[..if |parts| < 2 then |parts| else 2])
  {
    var w := WithoutZStream(version);
    var parts := Split(version, '.');
    JoinSplit(version, '.');
    if |version| > 8 {
      var kept := parts[..if |parts| < 2 then |parts| else 2];
      if |parts| > 2 {
        JoinAppend(parts, '.', 2);
      } else {
        assert kept == parts;
      }
      SplitJoin(kept, '.');
    }
  }

  /** Removing the Z-stream twice is removing it once. */
  lemma WithoutZStreamIdempotent(version: string)
    ensures WithoutZStream(WithoutZStream(version)) == WithoutZStream(version)
  {
    var w := WithoutZStream(version);
    WithoutZStreamKeepsTwoParts(version);
    if |w| > 8 {
      WithoutZStreamKeepsTwoParts(w);
      JoinSplit(w, '.');
      var parts := Split(w, '.');
      assert parts[..if |parts| < 2 then |parts| else 2] == parts;
    }
  }

  /** 'sat-6.11.0' becomes 'sat-6.11'. */
  lemma WithoutZStreamExample()
    ensures WithoutZStream("sat-6.11.0") == "sat-6.11"
  {
    var parts := ["sat-6", "11", "0"];
    assert Join(parts[2..], '.') == "0";
    assert Join(parts[1..], '.') == "11.0";
    assert Join(parts, '.') == "sat-6.11.0";
    SplitJoin(parts, '.');
    assert Join(parts[..2], '.') == "sat-6.11" by {
      assert parts[..2][1..] == ["11"];
    }
  }

  /** The list's new contents and the returned version. */
  datatype Processed = Processed(version: string, validAfter: seq<string>)

  /** The version neither as given nor without its Z-stream is valid: the list gets sorted. */
  predicate NeedsFallback(version: string, valid: seq<string>) {
    version !in valid && WithoutZStream(version) !in valid
  }

  /**
    What `process_sat_version(version, valid)` returns, and `valid`
    afterwards: the result is one of the valid values, the list keeps its
    entries, and it is reordered only by the fallback.
   */
  function Process(version: string, valid: seq<string>): (p: Processed)
    requires |valid| > 0
    ensures p.version in valid && multiset(p.validAfter) == multiset(valid)
    ensures !NeedsFallback(version, valid) ==> p.validAfter == valid
  {
    if version in valid then Processed(version, valid)
    else if WithoutZStream(version) in valid then Processed(WithoutZStream(version), valid)
    else
      var sorted := SortDescending(valid, SortKey);
      assert |sorted| == |multiset(valid)| == |valid|;
      assert sorted[0] in multiset(valid);
      Processed(sorted[0], sorted)
  }

  /** A valid version is returned as given and the list is not touched. */
  lemma ValidVersionUnchanged(version: string, valid: seq<string>)
    requires |valid| > 0 && version in valid
    ensures Process(version, valid) == Processed(version, valid)
  {
  }

  /**
    An invalid version is never truncated when it has at most 8 characters;
    a longer one whose truncation is valid comes back truncated, the list untouched.
   */
  lemma TruncationOnlyWhenLong(version: string, valid: seq<string>)
    requires |valid| > 0 && version !in valid
    ensures |version| <= 8 ==> NeedsFallback(version, valid)
    ensures WithoutZStream(version) in valid ==>
      Process(version, valid) == Processed(WithoutZStream(version), valid) && |version| > 8
  {
  }

  /**
    The fallback: the list is left sorted descending by key, stably and as a
    permutation of itself, and the result is the first entry with the
    greatest key in the list's original order.
   */
  lemma FallbackPicksLatest(version: string, valid: seq<string>)
    requires |valid| > 0 && NeedsFallback(version, valid)
    ensures var p := Process(version, valid);
      && multiset(p.validAfter) == multiset(valid)
      && Descending(p.validAfter, SortKey)
      && (forall k :: WithKey(p.validAfter, SortKey, k) == WithKey(valid, SortKey, k))
      && exists j :: IsFirstGreatest(valid, SortKey, j) && valid[j] == p.version
  {
    forall k
      ensures WithKey(SortDescending(valid, SortKey), SortKey, k) == WithKey(valid, SortKey, k)
    {
      SortIsStable(valid, SortKey, k);
    }
    SortedHeadIsFirstGreatest(valid, SortKey);
  }

  /** The result is always a valid version, and the list afterwards holds the same entries. */
  lemma ResultIsValid(version: string, valid: seq<string>)
    requires |valid| > 0
    ensures var p := Process(version, valid);
      && multiset(p.validAfter) == multiset(valid)
      && p.version in valid && p.version in p.validAfter
  {
    var p := Process(version, valid);
    if NeedsFallback(version, valid) {
      assert p.version in multiset(p.validAfter);
    }
  }

  /** Processing the result again, against the list as the first call left it, changes nothing. */
  lemma ProcessIdempotent(version: string, valid: seq<string>)
    requires |valid| > 0
    ensures var p := Process(version, valid);
      |p.validAfter| > 0 && Process(p.version, p.validAfter) == p
  {
    ResultIsValid(version, valid);
  }

  /** `a.sort(key=SortKey, reverse=True)`: sort `a` in place, descending by key, stably. */
  method SortInPlace(a: array<string>)
    requires AllNumericKeys(a[..])
    modifies a
    ensures a[..] == SortDescending(old(a[..]), SortKey)
  {
    var sorted := SortDescending(a[..], SortKey);
    assert |sorted| == |multiset(sorted)| == a.Length;
    forall i | 0 <= i < a.Length {
      a[i] := sorted[i];
    }
    assert a[..] == sorted;
  }

  /**
    `process_sat_version(sat_version, valid_sat_versions)`. The list must be
    non-empty (the source indexes its first entry) and, when it gets sorted,
    every entry must end in digits (the source parses them with `int`).
   */
  method ProcessSatVersion(satVersion: string, validSatVersions: array<string>) returns (version: string)
    requires validSatVersions.Length > 0
    requires NeedsFallback(satVersion, validSatVersions[..]) ==> AllNumericKeys(validSatVersions[..])
    modifies validSatVersions
    ensures Processed(version, validSatVersions[..]) == Process(satVersion, old(validSatVersions[..]))
  {
    version := satVersion;
    if version !in validSatVersions[..] {
      if |version| > 8 {
        var parts := Split(version, '.');
        parts := parts[..if |parts| < 2 then |parts| else 2];
        version := Join(parts, '.');
      }
      if version !in validSatVersions[..] {
        SortInPlace(validSatVersions);
        version := validSatVersions[0];
      }
    }
  }
}
