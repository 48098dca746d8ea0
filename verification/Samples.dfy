// Choosing the training samples: a greedy pass over the files under three limits.
module Samples {
  import opened Wrappers
  import opened Bytes

  const MEGABYTE: int := 1024 * 1024

  datatype Sample = Sample(path: string, size: u64)

  datatype Limits = Limits(numSamples: u64, maxFileMb: u64, maxTotalMb: u64)
  {
    /** Byte limits, in wrapping 64-bit arithmetic; zero means the default. */
    function MaxFile(): u64 { ((if maxFileMb > 0 then maxFileMb else 150) * MEGABYTE) % TWO_TO_64 }

    function MaxTotal(): u64 { ((if maxTotalMb > 0 then maxTotalMb else 300) * MEGABYTE) % TWO_TO_64 }
  }

  /** The limits in bytes: the option in megabytes while that fits in 64 bits, and 150 and 300 megabytes by default. */
  lemma LimitsInBytes(l: Limits)
    ensures l.maxFileMb == 0 ==> l.MaxFile() == 157_286_400
    ensures 0 < l.maxFileMb < 0x1000_0000_0000 ==> l.MaxFile() == l.maxFileMb * 1_048_576
    ensures l.maxTotalMb == 0 ==> l.MaxTotal() == 314_572_800
    ensures 0 < l.maxTotalMb < 0x1000_0000_0000 ==> l.MaxTotal() == l.maxTotalMb * 1_048_576
  {
  }

  /** The files under the per-file limit, in order. */
  function Eligible(samples: seq<Sample>, maxFile: nat): seq<Sample> {
    if |samples| == 0 then []
    else
      var last := samples[|samples| - 1];
      Eligible(samples[..|samples| - 1], maxFile) + (if last.size <= maxFile then [last] else [])
  }

  lemma {:induction false} EligibleMeans(samples: seq<Sample>, maxFile: nat, s: Sample)
    ensures s in Eligible(samples, maxFile) <==> s in samples && s.size <= maxFile
  {
    if |samples| > 0 {
      var front, last := samples[..|samples| - 1], samples[|samples| - 1];
      EligibleMeans(front, maxFile, s);
      assert samples == front + [last];
    }
  }

  function Total(samples: seq<Sample>): nat {
    if |samples| == 0 then 0 else Total(samples[..|samples| - 1]) + samples[|samples| - 1].size
  }

  /** A prefix of the eligible files obeys the limits; the first file is always allowed. */
  predicate Obeys(prefix: seq<Sample>, l: Limits) {
    && (l.numSamples == 0 || |prefix| <= l.numSamples)
    && (|prefix| <= 1 || Total(prefix) <= l.MaxTotal())
  }

  lemma {:induction false} TotalGrows(samples: seq<Sample>, n: nat)
    requires n <= |samples|
    ensures Total(samples[..n]) <= Total(samples)
  {
    if n < |samples| {
      assert samples[..|samples| - 1][..n] == samples[..n];
      TotalGrows(samples[..|samples| - 1], n);
    } else {
      assert samples[..n] == samples;
    }
  }

  /** A prefix of an obeying selection obeys, so "the longest obeying prefix" is well defined. */
  lemma ObeyingIsPrefixClosed(samples: seq<Sample>, l: Limits, n: nat)
    requires Obeys(samples, l) && n <= |samples|
    ensures Obeys(samples[..n], l)
  {
    TotalGrows(samples, n);
  }

  lemma {:induction false} EligiblePrefix(samples: seq<Sample>, maxFile: nat, n: nat)
    requires n <= |samples|
    ensures Eligible(samples[..n], maxFile) <= Eligible(samples, maxFile)
  {
    if n < |samples| {
      assert samples[..|samples| - 1][..n] == samples[..n];
      EligiblePrefix(samples[..|samples| - 1], maxFile, n);
    } else {
      assert samples[..n] == samples;
    }
  }

  lemma {:induction false} EligibleTotal(samples: seq<Sample>, maxFile: nat)
    ensures Total(Eligible(samples, maxFile)) <= Total(samples)
  {
    if |samples| > 0 {
      var front, last := samples[..|samples| - 1], samples[|samples| - 1];
      EligibleTotal(front, maxFile);
      TotalAppend(Eligible(front, maxFile), last);
      assert Eligible(front, maxFile) + [] == Eligible(front, maxFile);
    }
  }

  lemma TotalAppend(samples: seq<Sample>, s: Sample)
    ensures Total(samples + [s]) == Total(samples) + s.size
  {
    assert (samples + [s])[..|samples|] == samples;
  }

  lemma EligibleNext(samples: seq<Sample>, maxFile: nat, i: nat)
    requires i < |samples|
    ensures Eligible(samples[..i + 1], maxFile)
         == Eligible(samples[..i], maxFile) + (if samples[i].size <= maxFile then [samples[i]] else [])
  {
    assert samples[..i + 1][..i] == samples[..i];
  }

  /** Why a selection of the first k files is not made longer. */
  predicate Stops(all: seq<Sample>, l: Limits, k: nat) {
    k < |all| ==> (l.numSamples > 0 && k >= l.numSamples) || (k >= 1 && Total(all[..k + 1]) > l.MaxTotal())
  }

  /** If the next longer prefix breaks a limit, so does every longer one. */
  lemma NoLongerPrefixObeys(all: seq<Sample>, l: Limits, k: nat)
    requires Stops(all, l, k)
    ensures forall n | k < n <= |all| :: !Obeys(all[..n], l)
  {
    assert k < |all| ==> !Obeys(all[..k + 1], l);
    hide Obeys;
    forall n | k < n <= |all|
      ensures !Obeys(all[..n], l)
    {
      if Obeys(all[..n], l) {
        assert all[..n][..k + 1] == all[..k + 1];
        ObeyingIsPrefixClosed(all[..n], l, k + 1);
      }
    }
  }

  /** The same about the file that comes next. */
  lemma NextBreaksLimit(all: seq<Sample>, l: Limits, k: nat)
    requires Stops(all, l, k) && Obeys(all[..Min(k, |all|)], l)
    ensures k < |all| ==> k == l.numSamples || Total(all[..k]) + all[k].size > l.MaxTotal()
  {
    hide Limits.MaxTotal;
    if k < |all| {
      assert all[..k + 1] == all[..k] + [all[k]];
      TotalAppend(all[..k], all[k]);
    }
  }

  function Min(a: nat, b: nat): nat { if a <= b then a else b }

  lemma TotalStops(all: seq<Sample>, l: Limits, selected: seq<Sample>, s: Sample)
    requires selected != [] && selected + [s] <= all && Total(selected + [s]) > l.MaxTotal()
    ensures Stops(all, l, |selected|)
  {
    hide Limits.MaxTotal, Total;
    assert all[..|selected| + 1] == selected + [s];
  }

  lemma CountStops(all: seq<Sample>, l: Limits, k: nat)
    requires (l.numSamples > 0 && k >= l.numSamples) || k == |all|
    ensures Stops(all, l, k)
  {
  }

  /** Nothing keeps the first file out. */
  lemma NothingStops(all: seq<Sample>, l: Limits)
    requires Stops(all, l, 0)
    ensures all == []
  {
  }

  lemma ObeysNext(selected: seq<Sample>, l: Limits, s: Sample)
    requires l.numSamples == 0 || |selected| < l.numSamples
    requires selected == [] || Total(selected + [s]) <= l.MaxTotal()
    ensures Obeys(selected + [s], l)
  {
    hide Limits.MaxTotal, Total;
  }

  lemma ObeyingTotal(selected: seq<Sample>, l: Limits)
    requires Obeys(selected, l) && selected != []
    ensures Total(selected) <= l.MaxTotal() || |selected| == 1
    ensures l.numSamples > 0 ==> |selected| <= l.numSamples
  {
    hide Limits.MaxTotal, Total;
  }

  /** Taking one more eligible file cannot overflow the 64-bit total. */
  lemma NextFits(samples: seq<Sample>, maxFile: nat, i: nat)
    requires i < |samples| && samples[i].size <= maxFile
    ensures
      var selected := Eligible(samples[..i], maxFile);
      && selected + [samples[i]] <= Eligible(samples, maxFile)
      && Total(selected + [samples[i]]) == Total(selected) + samples[i].size <= Total(samples)
  {
    assert samples[..i + 1][..i] == samples[..i];
    EligiblePrefix(samples, maxFile, i + 1);
    EligibleTotal(samples[..i + 1], maxFile);
    TotalGrows(samples, i + 1);
    TotalAppend(Eligible(samples[..i], maxFile), samples[i]);
  }

  /** What the loop has chosen among the first i files. */
  ghost predicate Chosen(samples: seq<Sample>, i: nat, l: Limits, selected: seq<Sample>, total: nat)
    requires i <= |samples|
  {
    selected == Eligible(samples[..i], l.MaxFile()) && total == Total(selected) && Obeys(selected, l)
  }

  /** An obeying choice that cannot be made longer. */
  ghost predicate Final(samples: seq<Sample>, l: Limits, selected: seq<Sample>) {
    var all := Eligible(samples, l.MaxFile());
    selected <= all && Obeys(selected, l) && Stops(all, l, |selected|)
  }

  lemma ChosenNone(samples: seq<Sample>, l: Limits)
    ensures Chosen(samples, 0, l, [], 0)
  {
  }

  lemma ChosenSkip(samples: seq<Sample>, i: nat, l: Limits, selected: seq<Sample>, total: nat)
    requires i < |samples| && Chosen(samples, i, l, selected, total) && samples[i].size > l.MaxFile()
    ensures Chosen(samples, i + 1, l, selected, total)
  {
    hide Limits.MaxFile, Obeys, Total;
    EligibleNext(samples, l.MaxFile(), i);
  }

  lemma ChosenMore(samples: seq<Sample>, i: nat, l: Limits, selected: seq<Sample>, total: nat)
    requires i < |samples| && Chosen(samples, i, l, selected, total) && samples[i].size <= l.MaxFile()
    requires l.numSamples == 0 || |selected| < l.numSamples
    requires selected == [] || total + samples[i].size <= l.MaxTotal()
    ensures Chosen(samples, i + 1, l, selected + [samples[i]], total + samples[i].size)
  {
    hide Limits.MaxFile, Limits.MaxTotal, Obeys, Total;
    EligibleNext(samples, l.MaxFile(), i);
    TotalAppend(selected, samples[i]);
    ObeysNext(selected, l, samples[i]);
  }

  lemma ChosenTotal(samples: seq<Sample>, i: nat, l: Limits, selected: seq<Sample>, total: nat)
    requires i < |samples| && Chosen(samples, i, l, selected, total) && samples[i].size <= l.MaxFile()
    ensures total + samples[i].size <= Total(samples)
  {
    NextFits(samples, l.MaxFile(), i);
  }

  lemma FinalByCount(samples: seq<Sample>, i: nat, l: Limits, selected: seq<Sample>, total: nat)
    requires i <= |samples| && Chosen(samples, i, l, selected, total)
    requires (l.numSamples > 0 && |selected| >= l.numSamples) || i == |samples|
    ensures Final(samples, l, selected)
  {
    hide Limits.MaxFile, Obeys, Total, Stops;
    EligiblePrefix(samples, l.MaxFile(), i);
    assert samples[..|samples|] == samples;
    CountStops(Eligible(samples, l.MaxFile()), l, |selected|);
  }

  lemma FinalByTotal(samples: seq<Sample>, i: nat, l: Limits, selected: seq<Sample>, total: nat)
    requires i < |samples| && Chosen(samples, i, l, selected, total) && samples[i].size <= l.MaxFile()
    requires selected != [] && total + samples[i].size > l.MaxTotal()
    ensures Final(samples, l, selected)
  {
    hide Limits.MaxFile, Limits.MaxTotal, Obeys, Total, Stops;
    EligiblePrefix(samples, l.MaxFile(), i);
    NextFits(samples, l.MaxFile(), i);
    TotalAppend(selected, samples[i]);
    TotalStops(Eligible(samples, l.MaxFile()), l, selected, samples[i]);
  }

  /** What a final choice amounts to. */
  lemma FinalMeans(samples: seq<Sample>, l: Limits, selected: seq<Sample>)
    requires Final(samples, l, selected)
    ensures
      var all, n := Eligible(samples, l.MaxFile()), |selected|;
      && selected <= all && (selected == [] ==> all == [])
      && (forall k | n < k <= |all| :: !Obeys(all[..k], l))
      && (selected != [] ==> Total(selected) <= l.MaxTotal() || n == 1)
      && (l.numSamples > 0 ==> n <= l.numSamples)
      && (n < |all| ==> n == l.numSamples || Total(selected) + all[n].size > l.MaxTotal())
  {
    var all := Eligible(samples, l.MaxFile());
    assert all[..|selected|] == selected;
    NextBreaksLimit(all, l, |selected|);
    NoLongerPrefixObeys(all, l, |selected|);
    if selected == [] {
      NothingStops(all, l);
    } else {
      ObeyingTotal(selected, l);
    }
  }

  /**
   * The selection is the longest prefix of the eligible files that obeys the limits; None, an error, exactly when no
   * file is eligible. The total stays within its cap unless a single file was selected.
   */
  method SelectSamplePaths(samples: seq<Sample>, l: Limits) returns (r: Option<seq<Sample>>)
    requires Total(samples) < TWO_TO_64
    ensures r.None? <==> Eligible(samples, l.MaxFile()) == []
    ensures r.Some? ==>
        && r.value <= Eligible(samples, l.MaxFile())
        && Obeys(r.value, l)
        && (forall n | |r.value| < n <= |Eligible(samples, l.MaxFile())| ::
              !Obeys(Eligible(samples, l.MaxFile())[..n], l))
        && (Total(r.value) <= l.MaxTotal() || |r.value| == 1)
    ensures r.Some? ==>
        var all, n := Eligible(samples, l.MaxFile()), |r.value|;
        && (l.numSamples > 0 ==> n <= l.numSamples)
        && (n < |all| ==> n == l.numSamples || Total(r.value) + all[n].size > l.MaxTotal())
  {
    var selected := SelectFiles(samples, l);
    FinalMeans(samples, l, selected);
    r := if selected == [] then None else Some(selected);
  }

  /** The loop over the files. */
  method SelectFiles(samples: seq<Sample>, l: Limits) returns (selected: seq<Sample>)
    requires Total(samples) < TWO_TO_64
    ensures Final(samples, l, selected)
  {
    hide Chosen, Final, Limits.MaxFile, Limits.MaxTotal, Total;
    var maxFile, maxTotal := l.MaxFile(), l.MaxTotal();
    var total: u64 := 0;
    selected := [];
    ChosenNone(samples, l);
    for i := 0 to |samples|
      invariant Chosen(samples, i, l, selected, total)
    {
      var size := samples[i].size;
      if l.numSamples > 0 && |selected| >= l.numSamples {
        FinalByCount(samples, i, l, selected, total);
        return;
      }
      if size > maxFile {
        ChosenSkip(samples, i, l, selected, total);
        continue;
      }
      ChosenTotal(samples, i, l, selected, total);
      if Add64(total, size) > maxTotal && selected != [] {
        FinalByTotal(samples, i, l, selected, total);
        return;
      }
      ChosenMore(samples, i, l, selected, total);
      selected := selected + [samples[i]];
      total := Add64(total, size);
    }
    FinalByCount(samples, |samples|, l, selected, total);
  }
}
