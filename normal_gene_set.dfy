/**
 * The normal-tissue gene sets of scripts/Final_Scripts/TCGA_Normal_Gene_Set_Generation.py:
 * which samples of the full expression table count as healthy, the projection
 * of the table onto them, the split of its rows into the set of interest (SOI)
 * and the controls, and the per-index normal control sets that mirror the
 * tumour control sets.
 */
module NormalGeneSet {
  import opened Wrappers
  import opened Seqs
  import opened Text

  /** Sample type codes of healthy tissue, compared as exact strings. */
  const HealthyCodes: seq<string> := ["10", "12", "14", "11"]

  /** Sample type codes of metastatic tissue, compared as exact strings. */
  const MetastaticCodes: seq<string> := ["06", "07"]

  // ---------------------------------------------------------------------------
  // Samples

  /**
   * One row of the sample frame: the column name, and its dash-separated
   * segments 2 (participant) and 3 (type), None where the name is too short.
   */
  datatype Sample = Sample(id: string, participant: Option<string>, typeCode: Option<string>)

  /** pandas `.str[k]` on a split: the k-th piece, or NaN past the end. */
  function Segment(parts: seq<string>, k: nat): Option<string>
  {
    if k < |parts| then Some(parts[k]) else None
  }

  /**
   * `Samples.str.split('-').str[2]` and `.str[3]`: the participant is present
   * exactly when the name holds two dashes, the type exactly when it holds three.
   */
  function ParseSample(id: string): (s: Sample)
    ensures s.id == id
    ensures s.participant.Some? <==> Count(id, '-') >= 2
    ensures s.typeCode.Some? <==> Count(id, '-') >= 3
  {
    var parts := Split(id, '-');
    Sample(id, Segment(parts, 2), Segment(parts, 3))
  }

  /** A column name with at least four dash-separated segments. */
  ghost predicate HasSegments(id: string, a: string, b: string, p: string, t: string, rest: string)
  {
    && id == a + "-" + (b + "-" + (p + "-" + (t + rest)))
    && '-' !in a && '-' !in b && '-' !in p && '-' !in t
    && (rest == [] || rest[0] == '-')
  }

  /** Splitting a dash-free piece followed by a dash and the rest. */
  lemma SplitAfterPiece(a: string, tail: string)
    requires '-' !in a
    ensures Split(a + "-" + tail, '-') == [a] + Split(tail, '-')
  {
    assert a + "-" + tail == a + (['-'] + tail);
    SplitPrefix(a, ['-'] + tail, '-');
    assert (['-'] + tail)[1..] == tail;
    assert a + [] == a;
  }

  /** The pieces of a name with four dash-free segments in front. */
  lemma SplitOfSegments(id: string, a: string, b: string, p: string, t: string, rest: string)
    requires HasSegments(id, a, b, p, t, rest)
    ensures |Split(id, '-')| >= 4
    ensures Split(id, '-')[..4] == [a, b, p, t]
  {
    var tr := t + rest;
    SplitAfterPiece(a, b + "-" + (p + "-" + tr));
    SplitAfterPiece(b, p + "-" + tr);
    SplitAfterPiece(p, tr);
    if rest == [] {
      assert tr == t + [];
      SplitPrefix(t, [], '-');
    } else {
      assert tr == t + rest;
      SplitPrefix(t, rest, '-');
      assert rest == ['-'] + rest[1..];
    }
    assert Split(tr, '-')[0] == t;
  }

  /** Joining four or more pieces puts dashes between the first four and the rest. */
  lemma JoinOfFour(parts: seq<string>)
    requires |parts| >= 4
    ensures Join(parts, '-') == parts[0] + "-" + (parts[1] + "-" + (parts[2] + "-" + (parts[3]
      + (if |parts| == 4 then [] else "-" + Join(parts[4..], '-')))))
  {
    var last := if |parts| == 4 then [] else "-" + Join(parts[4..], '-');
    JoinTail(parts[3..]);
    assert parts[3..][0] == parts[3] && parts[3..][1..] == parts[4..];
    var j3 := Join(parts[3..], '-');
    assert j3 == parts[3] + last;
    JoinStep(parts[2..]);
    assert parts[2..][1..] == parts[3..];
    var j2 := Join(parts[2..], '-');
    assert j2 == parts[2] + "-" + j3;
    JoinStep(parts[1..]);
    assert parts[1..][1..] == parts[2..];
    var j1 := Join(parts[1..], '-');
    assert j1 == parts[1] + "-" + j2;
    JoinStep(parts);
    assert Join(parts, '-') == parts[0] + "-" + j1;
  }

  /** A dash-join of two or more pieces: the first piece, a dash, the join of the rest. */
  lemma JoinStep(parts: seq<string>)
    requires |parts| >= 2
    ensures Join(parts, '-') == parts[0] + "-" + Join(parts[1..], '-')
  {
    JoinCons(parts, '-');
  }

  /** A dash-join of one or more pieces: the first piece, then a dash and the rest if any. */
  lemma JoinTail(parts: seq<string>)
    requires |parts| >= 1
    ensures Join(parts, '-') == parts[0] + (if |parts| == 1 then [] else "-" + Join(parts[1..], '-'))
  {
    if |parts| == 1 {
      assert parts[0] + [] == parts[0];
    } else {
      JoinStep(parts);
      assert parts[0] + "-" + Join(parts[1..], '-') == parts[0] + ("-" + Join(parts[1..], '-'));
    }
  }

  /**
   * The participant is present exactly when the name holds two dashes, the type
   * exactly when it holds three, and then they are the third and fourth
   * dash-free segments of the name.
   */
  lemma ParseSampleSegments(id: string)
    ensures ParseSample(id).participant.Some? <==> Count(id, '-') >= 2
    ensures ParseSample(id).typeCode.Some? <==> Count(id, '-') >= 3
    ensures ParseSample(id).typeCode.Some? ==>
      exists a, b, rest :: HasSegments(id, a, b, ParseSample(id).participant.value, ParseSample(id).typeCode.value, rest)
  {
    var parts := Split(id, '-');
    if |parts| >= 4 {
      JoinSplit(id, '-');
      SplitPiecesHaveNoSeparator(id, '-');
      JoinOfFour(parts);
      var rest := if |parts| == 4 then [] else "-" + Join(parts[4..], '-');
      assert '-' !in parts[0] && '-' !in parts[1] && '-' !in parts[2] && '-' !in parts[3];
      assert HasSegments(id, parts[0], parts[1], parts[2], parts[3], rest);
    }
  }

  /** Conversely, the third and fourth segments of such a name are its participant and type. */
  lemma ParseSampleOfSegments(id: string, a: string, b: string, p: string, t: string, rest: string)
    requires HasSegments(id, a, b, p, t, rest)
    ensures ParseSample(id).participant == Some(p)
    ensures ParseSample(id).typeCode == Some(t)
  {
    SplitOfSegments(id, a, b, p, t, rest);
    var parts := Split(id, '-');
    assert parts[2] == parts[..4][2] && parts[3] == parts[..4][3];
  }

  /** The sample columns: the header from position 2 on (Python `columns[2:]`). */
  function SampleColumns(header: seq<string>): seq<string>
  {
    if |header| <= 2 then [] else header[2..]
  }

  /** The identifier columns: the first two header columns (Python `columns[:2]`). */
  function IdColumns(header: seq<string>): seq<string>
  {
    if |header| <= 2 then header else header[..2]
  }

  /** The sample frame: one parsed sample per header column after the first two. */
  function SampleFrame(header: seq<string>): (frame: seq<Sample>)
    ensures |frame| == if |header| <= 2 then 0 else |header| - 2
    ensures forall i :: 0 <= i < |frame| ==> frame[i].id == header[i + 2]
  {
    MapSeq(SampleColumns(header), ParseSample)
  }

  predicate TypeIn(t: Option<string>, codes: seq<string>)
  {
    t.Some? && t.value in codes
  }

  /** pandas `Type.isin(codes)`: a missing type matches no code. */
  function HasTypeIn(codes: seq<string>): Sample -> bool
  {
    (s: Sample) => TypeIn(s.typeCode, codes)
  }

  function ParticipantOf(s: Sample): Option<string>
  {
    s.participant
  }

  function IdOf(s: Sample): string
  {
    s.id
  }

  /** The participants listed for `codes` are exactly those of the samples carrying one of them. */
  lemma ParticipantsWithCode(frame: seq<Sample>, codes: seq<string>)
    ensures forall p :: p in MapSeq(Filter(frame, HasTypeIn(codes)), ParticipantOf) <==>
      exists s :: s in frame && TypeIn(s.typeCode, codes) && s.participant == p
  {
    var coded := Filter(frame, HasTypeIn(codes));
    forall p
      ensures p in MapSeq(coded, ParticipantOf) <==>
        exists s :: s in frame && TypeIn(s.typeCode, codes) && s.participant == p
    {
      MapSeqMember(coded, ParticipantOf, p);
    }
  }

  /** Participants of the healthy-coded samples, one entry per such sample. */
  function HealthyParticipants(frame: seq<Sample>): (ps: seq<Option<string>>)
    ensures |ps| <= |frame|
    ensures forall p :: p in ps <==> exists s :: s in frame && TypeIn(s.typeCode, HealthyCodes) && s.participant == p
  {
    ParticipantsWithCode(frame, HealthyCodes);
    MapSeq(Filter(frame, HasTypeIn(HealthyCodes)), ParticipantOf)
  }

  /** Participants of the metastatic-coded samples, one entry per such sample. */
  function MetastaticParticipants(frame: seq<Sample>): (ps: seq<Option<string>>)
    ensures |ps| <= |frame|
    ensures forall p :: p in ps <==> exists s :: s in frame && TypeIn(s.typeCode, MetastaticCodes) && s.participant == p
  {
    ParticipantsWithCode(frame, MetastaticCodes);
    MapSeq(Filter(frame, HasTypeIn(MetastaticCodes)), ParticipantOf)
  }

  /** Samples whose participant is in the first list and not in the second. */
  function UsableIn(healthy: seq<Option<string>>, metastatic: seq<Option<string>>): Sample -> bool
  {
    (s: Sample) => s.participant in healthy && s.participant !in metastatic
  }

  /**
   * The samples whose participant has a healthy-coded sample and no
   * metastatic-coded one, in frame order.
   */
  function UsableSamples(frame: seq<Sample>): (usable: seq<Sample>)
    ensures forall s :: s in usable <==>
      && s in frame
      && (exists h :: h in frame && TypeIn(h.typeCode, HealthyCodes) && h.participant == s.participant)
      && !(exists m :: m in frame && TypeIn(m.typeCode, MetastaticCodes) && m.participant == s.participant)
    ensures IsSubsequence(usable, frame)
  {
    var rule := UsableIn(HealthyParticipants(frame), MetastaticParticipants(frame));
    FilterIsSubsequence(frame, rule);
    Filter(frame, rule)
  }

  /**
   * The names of the usable samples that are themselves healthy-coded. They are
   * the sample columns, in header order, that are healthy-coded and whose
   * participant has no metastatic-coded sample: the script's test that the
   * participant has a healthy sample adds nothing.
   */
  function KeptSamples(header: seq<string>): (kept: seq<string>)
    ensures kept == Filter(SampleColumns(header), KeepColumn(MetastaticParticipants(SampleFrame(header))))
  {
    var cols := SampleColumns(header);
    var frame := SampleFrame(header);
    var healthy := HealthyParticipants(frame);
    assert forall c :: c in cols && TypeIn(ParseSample(c).typeCode, HealthyCodes) ==> ParseSample(c).participant in healthy by {
      forall c | c in cols && TypeIn(ParseSample(c).typeCode, HealthyCodes)
        ensures ParseSample(c).participant in healthy
      {
        var i :| 0 <= i < |cols| && cols[i] == c;
        assert frame[i] == ParseSample(c);
      }
    }
    KeptFromColumns(cols, healthy, MetastaticParticipants(frame));
    MapSeq(Filter(UsableSamples(frame), HasTypeIn(HealthyCodes)), IdOf)
  }

  /** The reference rule: healthy-coded, and the participant is none of the listed ones. */
  function KeepColumn(metastatic: seq<Option<string>>): string -> bool
  {
    (c: string) => TypeIn(ParseSample(c).typeCode, HealthyCodes) && ParseSample(c).participant !in metastatic
  }

  /** Some sample column of the participant carries a metastatic code. */
  ghost predicate HasMetastaticSample(header: seq<string>, p: Option<string>)
  {
    exists m :: m in SampleColumns(header) && TypeIn(ParseSample(m).typeCode, MetastaticCodes) && ParseSample(m).participant == p
  }

  /** Every healthy-coded sample's participant is among the healthy participants. */
  lemma HealthyParticipantsCover(frame: seq<Sample>)
    ensures forall s :: s in frame && TypeIn(s.typeCode, HealthyCodes) ==> s.participant in HealthyParticipants(frame)
  {
    forall s | s in frame && TypeIn(s.typeCode, HealthyCodes)
      ensures s.participant in HealthyParticipants(frame)
    {
      MapSeqMember(Filter(frame, HasTypeIn(HealthyCodes)), ParticipantOf, s.participant);
      assert s in Filter(frame, HasTypeIn(HealthyCodes));
    }
  }

  /** A listed metastatic participant has a metastatic-coded sample column. */
  lemma MetastaticParticipantSound(header: seq<string>, p: Option<string>)
    requires p in MetastaticParticipants(SampleFrame(header))
    ensures HasMetastaticSample(header, p)
  {
    var cols := SampleColumns(header);
    var frame := SampleFrame(header);
    var met := Filter(frame, HasTypeIn(MetastaticCodes));
    MapSeqMember(met, ParticipantOf, p);
    var s :| s in met && ParticipantOf(s) == p;
    var i :| 0 <= i < |frame| && frame[i] == s;
    assert frame[i] == ParseSample(cols[i]);
    assert cols[i] in cols;
  }

  /** A participant with a metastatic-coded sample column is listed. */
  lemma MetastaticParticipantComplete(header: seq<string>, p: Option<string>)
    requires HasMetastaticSample(header, p)
    ensures p in MetastaticParticipants(SampleFrame(header))
  {
    var cols := SampleColumns(header);
    var frame := SampleFrame(header);
    var met := Filter(frame, HasTypeIn(MetastaticCodes));
    var m :| m in cols && TypeIn(ParseSample(m).typeCode, MetastaticCodes) && ParseSample(m).participant == p;
    var i :| 0 <= i < |cols| && cols[i] == m;
    assert frame[i] == ParseSample(m);
    assert frame[i] in met;
    MapSeqMember(met, ParticipantOf, p);
  }

  /** The metastatic participants are exactly those with a metastatic-coded sample column. */
  lemma MetastaticParticipantsExactly(header: seq<string>)
    ensures forall p :: p in MetastaticParticipants(SampleFrame(header)) <==> HasMetastaticSample(header, p)
  {
    forall p
      ensures p in MetastaticParticipants(SampleFrame(header)) <==> HasMetastaticSample(header, p)
    {
      if p in MetastaticParticipants(SampleFrame(header)) {
        MetastaticParticipantSound(header, p);
      }
      if HasMetastaticSample(header, p) {
        MetastaticParticipantComplete(header, p);
      }
    }
  }

  /** The script's list pipeline, on any columns and participant lists that cover the healthy ones. */
  lemma {:induction false} KeptFromColumns(cols: seq<string>, healthy: seq<Option<string>>, metastatic: seq<Option<string>>)
    requires forall c :: c in cols && TypeIn(ParseSample(c).typeCode, HealthyCodes) ==> ParseSample(c).participant in healthy
    ensures MapSeq(Filter(Filter(MapSeq(cols, ParseSample), UsableIn(healthy, metastatic)), HasTypeIn(HealthyCodes)), IdOf)
         == Filter(cols, KeepColumn(metastatic))
  {
    if cols != [] {
      var c, tail := cols[0], cols[1..];
      KeptFromColumns(tail, healthy, metastatic);
      var s := ParseSample(c);
      var frame := MapSeq(cols, ParseSample);
      assert frame == [s] + MapSeq(tail, ParseSample);
      assert frame[1..] == MapSeq(tail, ParseSample);
      var usable := Filter(frame, UsableIn(healthy, metastatic));
      var usableTail := Filter(MapSeq(tail, ParseSample), UsableIn(healthy, metastatic));
      var kept := Filter(usable, HasTypeIn(HealthyCodes));
      var keptTail := Filter(usableTail, HasTypeIn(HealthyCodes));
      if UsableIn(healthy, metastatic)(s) {
        assert usable == [s] + usableTail;
        assert usable[1..] == usableTail;
        if HasTypeIn(HealthyCodes)(s) {
          assert kept == [s] + keptTail;
          assert kept[1..] == keptTail;
          assert MapSeq(kept, IdOf) == [c] + MapSeq(keptTail, IdOf);
          assert KeepColumn(metastatic)(c);
        } else {
          assert kept == keptTail;
          assert !KeepColumn(metastatic)(c);
        }
      } else {
        assert usable == usableTail;
        assert !KeepColumn(metastatic)(c);
      }
    }
  }

  /**
   * A column is kept exactly when it is a sample column, its type is one of
   * the healthy codes, and no sample column of the same participant carries a
   * metastatic code.
   */
  lemma KeptSamplesExactly(header: seq<string>)
    ensures forall c :: c in KeptSamples(header) <==>
      && c in SampleColumns(header)
      && TypeIn(ParseSample(c).typeCode, HealthyCodes)
      && !HasMetastaticSample(header, ParseSample(c).participant)
  {
    MetastaticParticipantsExactly(header);
  }

  /** The kept samples keep the header order. */
  lemma KeptSamplesInOrder(header: seq<string>)
    ensures IsSubsequence(KeptSamples(header), SampleColumns(header))
  {
    FilterIsSubsequence(SampleColumns(header), KeepColumn(MetastaticParticipants(SampleFrame(header))));
  }

  /** One metastatic sample excludes every sample of its participant, healthy ones included. */
  lemma MetastaticExcludesParticipant(header: seq<string>, m: string, c: string)
    requires m in SampleColumns(header) && TypeIn(ParseSample(m).typeCode, MetastaticCodes)
    requires ParseSample(c).participant == ParseSample(m).participant
    ensures c !in KeptSamples(header)
  {
    KeptSamplesExactly(header);
    assert HasMetastaticSample(header, ParseSample(c).participant);
  }

  /** Kept samples carry one of the four healthy codes, letter for letter. */
  lemma KeptSamplesAreHealthy(header: seq<string>)
    ensures forall c :: c in KeptSamples(header) ==>
      ParseSample(c).typeCode in [Some("10"), Some("11"), Some("12"), Some("14")]
  {
    var keep := KeepColumn(MetastaticParticipants(SampleFrame(header)));
    forall c | c in KeptSamples(header)
      ensures ParseSample(c).typeCode in [Some("10"), Some("11"), Some("12"), Some("14")]
    {
      assert keep(c);
      HealthyCodeSpelled(ParseSample(c).typeCode);
    }
  }

  /** The healthy codes, written out. */
  lemma HealthyCodeSpelled(t: Option<string>)
    requires TypeIn(t, HealthyCodes)
    ensures t in [Some("10"), Some("11"), Some("12"), Some("14")]
  {
    assert t.value == "10" || t.value == "12" || t.value == "14" || t.value == "11";
  }

  /** A header whose type segments carry a trailing letter. */
  predicate IsLetteredExample(header: seq<string>)
  {
    header == ["id", "Gene", "X-Y-01-10A", "X-Y-01-10B", "X-Y-02-06A"]
  }

  /**
   * Codes are compared as whole strings: "10A" is no healthy code, so in this
   * header no sample is kept.
   */
  lemma ExactCodesExample(header: seq<string>)
    requires IsLetteredExample(header)
    ensures KeptSamples(header) == []
  {
    LetteredExampleNotHealthy(header);
    NothingHealthyNothingKept(header);
  }

  lemma LetteredExampleNotHealthy(header: seq<string>)
    requires IsLetteredExample(header)
    ensures forall c :: c in SampleColumns(header) ==> !TypeIn(ParseSample(c).typeCode, HealthyCodes)
  {
    var cols := SampleColumns(header);
    var types := ["10A", "10B", "06A"];
    assert forall t :: t in types ==> t !in HealthyCodes;
    forall c | c in cols
      ensures !TypeIn(ParseSample(c).typeCode, HealthyCodes)
    {
      var i :| 0 <= i < |cols| && cols[i] == c;
      LetteredExampleTypes(header, i, ["01", "01", "02"][i], types[i]);
      assert types[i] in types;
    }
  }

  lemma LetteredExampleTypes(header: seq<string>, i: nat, p: string, t: string)
    requires IsLetteredExample(header)
    requires i < 3 && t == ["10A", "10B", "06A"][i] && p == ["01", "01", "02"][i]
    ensures |SampleColumns(header)| == 3
    ensures ParseSample(SampleColumns(header)[i]).typeCode == Some(t)
  {
    assert '-' !in t && '-' !in p;
    assert SampleColumns(header)[i] == "X" + "-" + ("Y" + "-" + (p + "-" + (t + [])));
    ParseSampleOfSegments(SampleColumns(header)[i], "X", "Y", p, t, []);
  }

  /** Without a healthy-coded sample column nothing is kept. */
  lemma NothingHealthyNothingKept(header: seq<string>)
    requires forall c :: c in SampleColumns(header) ==> !TypeIn(ParseSample(c).typeCode, HealthyCodes)
    ensures KeptSamples(header) == []
  {
    FilterNone(SampleColumns(header), KeepColumn(MetastaticParticipants(SampleFrame(header))));
  }

  // ---------------------------------------------------------------------------
  // Tables

  /** One gene: its id, its symbol and one value per sample column. */
  datatype Row = Row(id: string, gene: string, values: seq<string>)

  /** An expression table: the header (`id`, `Gene`, then the samples) and the gene rows. */
  datatype Table = Table(header: seq<string>, rows: seq<Row>)

  /** Every row holds one value per sample column. */
  predicate WellFormed(t: Table)
  {
    |t.header| >= 2 && forall r :: r in t.rows ==> |r.values| == |t.header| - 2
  }

  /** The values whose column name is requested, in column order. */
  function Pick(names: seq<string>, values: seq<string>, keep: seq<string>): (r: seq<string>)
    ensures |r| <= |values|
    decreases |names|
  {
    if names == [] || values == [] then []
    else (if names[0] in keep then [values[0]] else []) + Pick(names[1..], values[1..], keep)
  }

  function InList(keep: seq<string>): string -> bool
  {
    (c: string) => c in keep
  }

  function NotInList(names: seq<string>): string -> bool
  {
    (c: string) => c !in names
  }

  /** pandas rejects `usecols` entries the header lacks, listing them. */
  datatype ColumnError = UnknownColumns(missing: seq<string>)

  function ProjectRow(samples: seq<string>, keep: seq<string>): Row -> Row
  {
    (r: Row) => Row(r.id, r.gene, Pick(samples, r.values, keep))
  }

  /** Picking a names list against itself selects the requested names in order. */
  lemma {:induction false} PickNames(names: seq<string>, keep: seq<string>)
    ensures Pick(names, names, keep) == Filter(names, InList(keep))
  {
    if names != [] {
      PickNames(names[1..], keep);
    }
  }

  /** A row's picked values line up with the picked column names. */
  lemma {:induction false} PickLength(names: seq<string>, values: seq<string>, keep: seq<string>)
    requires |values| == |names|
    ensures |Pick(names, values, keep)| == |Pick(names, names, keep)|
  {
    if names != [] {
      PickLength(names[1..], values[1..], keep);
    }
  }

  /** Each picked value is the value of a column with the same name as the picked column. */
  lemma {:induction false} PickAligned(names: seq<string>, values: seq<string>, keep: seq<string>, j: nat)
    requires |values| == |names|
    requires j < |Pick(names, names, keep)|
    ensures |Pick(names, values, keep)| == |Pick(names, names, keep)|
    ensures exists k :: 0 <= k < |names| && names[k] == Pick(names, names, keep)[j] && values[k] == Pick(names, values, keep)[j]
  {
    PickLength(names, values, keep);
    var tail := Pick(names[1..], names[1..], keep);
    var valueTail := Pick(names[1..], values[1..], keep);
    if names[0] in keep && j == 0 {
      assert names[0] == Pick(names, names, keep)[0] && values[0] == Pick(names, values, keep)[0];
    } else {
      var j' := if names[0] in keep then j - 1 else j;
      assert Pick(names, names, keep)[j] == tail[j'];
      assert Pick(names, values, keep)[j] == valueTail[j'];
      PickAligned(names[1..], values[1..], keep, j');
      var k :| 0 <= k < |names| - 1 && names[1..][k] == tail[j'] && values[1..][k] == valueTail[j'];
      assert names[k + 1] == Pick(names, names, keep)[j] && values[k + 1] == Pick(names, values, keep)[j];
    }
  }

  /** Picking again with the same request changes nothing. */
  lemma {:induction false} PickTwice(names: seq<string>, values: seq<string>, keep: seq<string>)
    ensures Pick(Pick(names, names, keep), Pick(names, values, keep), keep) == Pick(names, values, keep)
  {
    if names != [] && values != [] {
      PickTwice(names[1..], values[1..], keep);
      var once := Pick(names, names, keep);
      var onceValues := Pick(names, values, keep);
      if names[0] in keep {
        assert once == [names[0]] + Pick(names[1..], names[1..], keep);
        assert onceValues == [values[0]] + Pick(names[1..], values[1..], keep);
        assert once[1..] == Pick(names[1..], names[1..], keep);
        assert onceValues[1..] == Pick(names[1..], values[1..], keep);
        assert Pick(once, onceValues, keep) == [values[0]] + Pick(once[1..], onceValues[1..], keep);
      } else {
        assert once == Pick(names[1..], names[1..], keep);
        assert onceValues == Pick(names[1..], values[1..], keep);
      }
    }
  }

  /**
   * The identifier columns and the requested sample columns, in header order,
   * with every row cut to match and keeping its id and gene.
   */
  function Projection(t: Table, keep: seq<string>): (u: Table)
    ensures u.header == IdColumns(t.header) + Filter(SampleColumns(t.header), InList(keep))
    ensures |u.rows| == |t.rows|
    ensures forall i :: 0 <= i < |t.rows| ==> u.rows[i].id == t.rows[i].id && u.rows[i].gene == t.rows[i].gene
  {
    var samples := SampleColumns(t.header);
    PickNames(samples, keep);
    Table(IdColumns(t.header) + Pick(samples, samples, keep), MapSeq(t.rows, ProjectRow(samples, keep)))
  }

  /**
   * `read_csv(usecols = columns[:2] + keep)`: the identifier columns and the
   * requested sample columns, in header order, with every row cut to match;
   * a requested name the header lacks fails and is reported.
   */
  function SelectColumns(t: Table, keep: seq<string>): (r: Result<Table, ColumnError>)
    ensures r.Err? <==> exists c :: c in keep && c !in t.header
    ensures r.Err? ==> forall c :: c in r.error.missing <==> c in keep && c !in t.header
    ensures r.Ok? ==> r.value.header == IdColumns(t.header) + Filter(SampleColumns(t.header), InList(keep))
    ensures r.Ok? ==> |r.value.rows| == |t.rows|
    ensures r.Ok? ==> forall i :: 0 <= i < |t.rows| ==>
      r.value.rows[i].id == t.rows[i].id && r.value.rows[i].gene == t.rows[i].gene
  {
    var missing := Filter(keep, NotInList(t.header));
    if missing != [] then
      assert missing[0] in missing;
      Err(UnknownColumns(missing))
    else
      Ok(Projection(t, keep))
  }

  /**
   * A successful projection is a table again, and each value of a row stays
   * under a column of the same name as before.
   */
  lemma SelectColumnsKeepsCells(t: Table, keep: seq<string>, i: nat, j: nat)
    requires WellFormed(t) && SelectColumns(t, keep).Ok?
    requires i < |t.rows| && j < |SelectColumns(t, keep).value.header| - 2
    ensures WellFormed(SelectColumns(t, keep).value)
    ensures exists k :: (0 <= k < |t.header| - 2
      && t.header[k + 2] == SelectColumns(t, keep).value.header[j + 2]
      && t.rows[i].values[k] == SelectColumns(t, keep).value.rows[i].values[j])
  {
    var samples := SampleColumns(t.header);
    var u := Projection(t, keep);
    assert SelectColumns(t, keep).value == u;
    forall r | r in u.rows
      ensures |r.values| == |u.header| - 2
    {
      var n :| 0 <= n < |u.rows| && u.rows[n] == r;
      assert t.rows[n] in t.rows;
      PickLength(samples, t.rows[n].values, keep);
    }
    assert u.header[j + 2] == Pick(samples, samples, keep)[j];
    assert u.rows[i].values == Pick(samples, t.rows[i].values, keep);
    assert t.rows[i] in t.rows;
    PickAligned(samples, t.rows[i].values, keep, j);
    var k :| 0 <= k < |samples| && samples[k] == Pick(samples, samples, keep)[j]
      && t.rows[i].values[k] == Pick(samples, t.rows[i].values, keep)[j];
    assert t.header[k + 2] == samples[k];
  }

  /** A projection's identifier and sample columns. */
  lemma ProjectionColumns(t: Table, keep: seq<string>)
    ensures IdColumns(Projection(t, keep).header) == IdColumns(t.header)
    ensures SampleColumns(Projection(t, keep).header) == Pick(SampleColumns(t.header), SampleColumns(t.header), keep)
  {
  }

  /** Projecting a projection onto the same request changes nothing. */
  lemma ProjectionTwice(t: Table, keep: seq<string>)
    ensures Projection(Projection(t, keep), keep) == Projection(t, keep)
  {
    var samples := SampleColumns(t.header);
    var u := Projection(t, keep);
    var picked := Pick(samples, samples, keep);
    ProjectionColumns(t, keep);
    PickTwice(samples, samples, keep);
    var v := Projection(u, keep);
    assert v.header == u.header;
    forall n | 0 <= n < |u.rows|
      ensures v.rows[n] == u.rows[n]
    {
      assert u.rows[n] == ProjectRow(samples, keep)(t.rows[n]);
      assert v.rows[n] == ProjectRow(picked, keep)(u.rows[n]);
      PickTwice(samples, t.rows[n].values, keep);
    }
  }

  /** Projecting a projection onto the same samples succeeds and changes nothing. */
  lemma SelectColumnsIdempotent(t: Table, keep: seq<string>)
    requires SelectColumns(t, keep).Ok?
    ensures SelectColumns(SelectColumns(t, keep).value, keep) == SelectColumns(t, keep)
  {
    var samples := SampleColumns(t.header);
    var u := Projection(t, keep);
    assert SelectColumns(t, keep) == Ok(u);
    ProjectionColumns(t, keep);
    PickNames(samples, keep);
    assert t.header == IdColumns(t.header) + samples;
    assert u.header == IdColumns(t.header) + SampleColumns(u.header);
    forall c | c in keep
      ensures c in u.header
    {
      assert c in t.header;
      if c !in IdColumns(t.header) {
        assert c in samples;
      }
    }
    ProjectionTwice(t, keep);
  }

  /**
   * The healthy table: all genes, the identifier columns and the kept samples.
   * Every requested column is in the header, so reading it never fails.
   */
  function NormalTable(t: Table): (r: Result<Table, ColumnError>)
    ensures r.Ok?
    ensures r.value.header == IdColumns(t.header) + KeptSamples(t.header)
    ensures |r.value.rows| == |t.rows|
  {
    KeptSamplesSelectable(t.header);
    SelectColumns(t, KeptSamples(t.header))
  }

  /** The kept samples are header columns, and selecting them from the sample columns gives them back. */
  lemma KeptSamplesSelectable(header: seq<string>)
    ensures forall c :: c in KeptSamples(header) ==> c in header
    ensures Filter(SampleColumns(header), InList(KeptSamples(header))) == KeptSamples(header)
  {
    var cols := SampleColumns(header);
    var kept := KeptSamples(header);
    forall c | c in kept
      ensures c in header
    {
      assert c in cols;
    }
    FilterCongruent(cols, InList(kept), KeepColumn(MetastaticParticipants(SampleFrame(header))));
  }

  // ---------------------------------------------------------------------------
  // Set of interest and controls

  /** The id or the gene symbol belongs to the set of interest. */
  function IsSoiRow(soiIds: seq<string>, soiGenes: seq<string>): Row -> bool
  {
    (r: Row) => r.id in soiIds || r.gene in soiGenes
  }

  /** Neither the id nor the gene symbol belongs to the set of interest. */
  function IsControlRow(soiIds: seq<string>, soiGenes: seq<string>): Row -> bool
  {
    (r: Row) => r.id !in soiIds && r.gene !in soiGenes
  }

  /** The rows whose id or gene belongs to the set of interest, in table order. */
  function SoiSubset(t: Table, soiIds: seq<string>, soiGenes: seq<string>): (u: Table)
    ensures u.header == t.header
    ensures forall r :: r in u.rows <==> r in t.rows && (r.id in soiIds || r.gene in soiGenes)
    ensures IsSubsequence(u.rows, t.rows)
  {
    FilterIsSubsequence(t.rows, IsSoiRow(soiIds, soiGenes));
    Table(t.header, Filter(t.rows, IsSoiRow(soiIds, soiGenes)))
  }

  /** The rows with neither id nor gene in the set of interest, in table order. */
  function ControlSubset(t: Table, soiIds: seq<string>, soiGenes: seq<string>): (u: Table)
    ensures u.header == t.header
    ensures forall r :: r in u.rows <==> r in t.rows && r.id !in soiIds && r.gene !in soiGenes
    ensures IsSubsequence(u.rows, t.rows)
  {
    FilterIsSubsequence(t.rows, IsControlRow(soiIds, soiGenes));
    Table(t.header, Filter(t.rows, IsControlRow(soiIds, soiGenes)))
  }

  /**
   * The SOI subset and the control subset split the rows of the table between
   * them, with no row lost, repeated or in both.
   */
  lemma SoiControlPartition(t: Table, soiIds: seq<string>, soiGenes: seq<string>)
    ensures multiset(SoiSubset(t, soiIds, soiGenes).rows) + multiset(ControlSubset(t, soiIds, soiGenes).rows)
         == multiset(t.rows)
    ensures forall r :: r in t.rows ==>
      (r in SoiSubset(t, soiIds, soiGenes).rows <==> r !in ControlSubset(t, soiIds, soiGenes).rows)
  {
    FilterPartition(t.rows, IsSoiRow(soiIds, soiGenes), IsControlRow(soiIds, soiGenes));
  }

  // ---------------------------------------------------------------------------
  // Per-index control sets

  /** The id is one of the tumour control set's gene ids. */
  function IdIn(geneIds: seq<string>): Row -> bool
  {
    (r: Row) => r.id in geneIds
  }

  /** The control rows whose id is in one tumour control set, in table order. */
  function NormalControlSet(allControls: Table, geneIds: seq<string>): (u: Table)
    ensures u.header == allControls.header
    ensures forall r :: r in u.rows <==> r in allControls.rows && r.id in geneIds
    ensures IsSubsequence(u.rows, allControls.rows)
  {
    FilterIsSubsequence(allControls.rows, IdIn(geneIds));
    Table(allControls.header, Filter(allControls.rows, IdIn(geneIds)))
  }

  /** Output `Set{number}` of the loop. */
  datatype NumberedSet = NumberedSet(number: nat, table: Table)

  /**
   * The loop over `df1`, `df2`, ...: the n-th output is numbered n and holds
   * the control rows whose id is in the n-th tumour control set.
   */
  method NormalControlSets(allControls: Table, series: seq<seq<string>>) returns (sets: seq<NumberedSet>)
    ensures |sets| == |series|
    ensures forall n :: 0 <= n < |series| ==>
      sets[n].number == n + 1 && sets[n].table == NormalControlSet(allControls, series[n])
  {
    sets := [];
    var dfNumber := 1;
    while dfNumber <= |series|
      invariant 1 <= dfNumber <= |series| + 1
      invariant |sets| == dfNumber - 1
      invariant forall n :: 0 <= n < |sets| ==>
        sets[n].number == n + 1 && sets[n].table == NormalControlSet(allControls, series[n])
    {
      var geneIds := series[dfNumber - 1];
      var normalSet := NormalControlSet(allControls, geneIds);
      sets := sets + [NumberedSet(dfNumber, normalSet)];
      dfNumber := dfNumber + 1;
    }
  }

  /**
   * A normal control set built from the control subset holds, in order, the
   * rows of the normal table that are outside the set of interest and whose id
   * is in the tumour control set; no SOI row reaches it.
   */
  lemma NormalControlSetRows(t: Table, soiIds: seq<string>, soiGenes: seq<string>, geneIds: seq<string>)
    ensures NormalControlSet(ControlSubset(t, soiIds, soiGenes), geneIds).header == t.header
    ensures forall r :: r in NormalControlSet(ControlSubset(t, soiIds, soiGenes), geneIds).rows <==>
      r in t.rows && r.id !in soiIds && r.gene !in soiGenes && r.id in geneIds
    ensures IsSubsequence(NormalControlSet(ControlSubset(t, soiIds, soiGenes), geneIds).rows,
                          ControlSubset(t, soiIds, soiGenes).rows)
  {
  }
}
