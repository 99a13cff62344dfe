/** The per-section drivers: `section_ent_line` and
    `section_byte_occurance_histogram` walk the parsed sections in order,
    naming each with `fix_section_name`. Sections arrive from the executable
    parser as plain (name, content) values. */
module Sections {
  import opened Results
  import opened Bytes
  import opened Smoothing
  import opened SectionName
  import opened SectionBlocks
  import opened Histogram

  datatype Section = Section(name: Option<string>, content: seq<Byte>)

  /** One section's entropy line, under its display name. */
  datatype Profile = Profile(name: string, samples: seq<real>)

  /** One section's histogram rows, under its display name. */
  datatype SectionHistogram = SectionHistogram(name: string, rows: Rows)

  /** `section_ent_line`: the sections in order, each with its smoothed block
      samples. The call fails as soon as one section fails: a block size of
      0 raises at the first section, a negative one hangs at the first
      non-empty section. */
  method SectionEntLines(sections: seq<Section>, blockSize: int, ent: EntropyFn) returns (r: Result<seq<Profile>>)
    ensures r.Ok? <==> forall i :: 0 <= i < |sections| ==> SectionSamples(sections[i].content, blockSize, ent).Ok?
    ensures r.Ok? ==> |r.value| == |sections| && forall i :: 0 <= i < |sections| ==>
      r.value[i] == Profile(FixSectionName(sections[i].name, i), SectionSamples(sections[i].content, blockSize, ent).value)
    ensures r.Err? ==> exists i :: 0 <= i < |sections| && SectionSamples(sections[i].content, blockSize, ent) == Err(r.error)
  {
    var profiles: seq<Profile> := [];
    for i := 0 to |sections|
      invariant ProfilesSoFar(sections, blockSize, ent, profiles, i)
    {
      var name := FixSectionName(sections[i].name, i);
      var samples := SectionEntLine(sections[i].content, blockSize, ent);
      if samples.Err? {
        return Err(samples.error);
      }
      ProfilesStep(sections, blockSize, ent, profiles, i);
      profiles := profiles + [Profile(name, samples.value)];
    }
    r := Ok(profiles);
  }

  /** The loop state after `i` sections: each of them walked without error
      and has its profile, in order. */
  ghost predicate ProfilesSoFar(sections: seq<Section>, blockSize: int, ent: EntropyFn, profiles: seq<Profile>, i: nat)
  {
    && i <= |sections|
    && |profiles| == i
    && (forall k :: 0 <= k < i ==> SectionSamples(sections[k].content, blockSize, ent).Ok?)
    && (forall k :: 0 <= k < i ==>
         profiles[k] == Profile(FixSectionName(sections[k].name, k), SectionSamples(sections[k].content, blockSize, ent).value))
  }

  lemma ProfilesStep(sections: seq<Section>, blockSize: int, ent: EntropyFn, profiles: seq<Profile>, i: nat)
    requires ProfilesSoFar(sections, blockSize, ent, profiles, i) && i < |sections|
    requires SectionSamples(sections[i].content, blockSize, ent).Ok?
    ensures ProfilesSoFar(sections, blockSize, ent,
      profiles + [Profile(FixSectionName(sections[i].name, i), SectionSamples(sections[i].content, blockSize, ent).value)], i + 1)
  {
    var next := profiles + [Profile(FixSectionName(sections[i].name, i), SectionSamples(sections[i].content, blockSize, ent).value)];
    forall k | 0 <= k < i + 1
      ensures SectionSamples(sections[k].content, blockSize, ent).Ok?
      ensures next[k] == Profile(FixSectionName(sections[k].name, k), SectionSamples(sections[k].content, blockSize, ent).value)
    {
      if k < i {
        assert next[k] == profiles[k];
      }
    }
  }

  /** `section_byte_occurance_histogram`: the sections in order, each with
      its byte histogram rows. */
  method SectionHistograms(sections: seq<Section>, ignoreZero: bool, ordered: bool) returns (hs: seq<SectionHistogram>)
    ensures |hs| == |sections|
    ensures forall i :: 0 <= i < |sections| ==>
      hs[i].name == FixSectionName(sections[i].name, i) &&
      Sum(hs[i].rows.valueRow) == |sections[i].content| - (if ignoreZero then Count(sections[i].content, 0) else 0) &&
      (ordered <==> hs[i].rows.orderedRow.Some?)
    ensures forall i :: 0 <= i < |sections| ==> hs[i].rows == ByteHistogram(sections[i].content, ignoreZero, ordered)
  {
    hs := [];
    for i := 0 to |sections|
      invariant |hs| == i
      invariant forall k :: 0 <= k < i ==>
        hs[k] == SectionHistogram(FixSectionName(sections[k].name, k), ByteHistogram(sections[k].content, ignoreZero, ordered))
    {
      hs := hs + [SectionHistogram(FixSectionName(sections[i].name, i), ByteHistogram(sections[i].content, ignoreZero, ordered))];
    }
    forall i | 0 <= i < |sections|
      ensures Sum(hs[i].rows.valueRow) == |sections[i].content| - (if ignoreZero then Count(sections[i].content, 0) else 0)
    {
      ByteHistogramRows(sections[i].content, ignoreZero, ordered);
    }
  }
}
