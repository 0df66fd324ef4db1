/** Paths of the history as the text the source prints: the model's paths lose nothing. */
module PathText {
  import opened Records
  import Decimal

  function RawText(raw: RawFile): string {
    match raw
    case Candidate1 => "candidate-1.txt"
    case Candidate2 => "candidate-2.txt"
    case Candidate3 => "candidate-3.txt"
    case CandidateRates => "candidate-rates.txt"
    case CandidateServerLog => "candidate-server.log"
    case Baseline1 => "baseline-1.txt"
    case Baseline2 => "baseline-2.txt"
    case Baseline3 => "baseline-3.txt"
    case BaselineRates => "baseline-rates.txt"
    case BaselineServerLog => "baseline-server.log"
  }

  function NameText(name: RootName): string {
    match name
    case IndexName => "index.json"
    case LatestName => "latest.json"
    case ReadmeName => "README.md"
    case NoJekyllName => ".nojekyll"
    case ContractName => "CONTRACT.md"
    case DirectoryName(text) => text
    case OtherName(text) => text
  }

  function Join(directory: string, rest: string): string { directory + ['/'] + rest }

  /** Relative to the history directory. */
  function Text(p: Path): string {
    match p
    case RecordAt(year, id) => Join("records", Join(year, id + ".json"))
    case RawAt(year, id, raw) => Join("raw", Join(year, Join(id, RawText(raw))))
    case SchemaAt(schema) => Join("schema", schema)
    case Root(name) => NameText(name)
  }

  /** A name is told by its text, and every text is a name. */
  lemma NameRoundTrip(text: string)
    ensures NameText(RootNamed(text)) == text
  {
  }

  predicate IsPart(s: string) { '/' !in s }

  /** The parts of a path are single names. */
  ghost predicate IsPath(p: Path) {
    match p
    case RecordAt(year, id) => IsPart(year) && IsPart(id)
    case RawAt(year, id, raw) => IsPart(year) && IsPart(id)
    case SchemaAt(schema) => IsPart(schema)
    case Root(name) => IsPart(NameText(name)) && name == RootNamed(NameText(name))
  }

  lemma JoinCut(a: string, x: string, b: string, y: string)
    requires IsPart(a) && IsPart(b) && Join(a, x) == Join(b, y)
    ensures a == b && x == y
  {
    Decimal.FirstCutIsUnique(a, b, x, y, '/');
  }

  lemma JoinIsNoPart(a: string, x: string)
    ensures !IsPart(Join(a, x))
  {
    assert Join(a, x)[|a|] == '/';
  }

  lemma RawTextInjective(a: RawFile, b: RawFile)
    requires RawText(a) == RawText(b)
    ensures a == b
  {
    var s, t := RawText(a), RawText(b);
    assert |s| == |t| && (|s| >= 11 ==> s[0] == t[0] && s[10] == t[10] && s[9] == t[9]);
  }

  lemma SuffixCut(a: string, b: string, suffix: string)
    requires a + suffix == b + suffix
    ensures a == b
  {
    assert |a| == |b|;
    assert (a + suffix)[..|a|] == a && (b + suffix)[..|b|] == b;
  }

  /** Different paths are different files. */
  lemma TextInjective(p: Path, q: Path)
    requires IsPath(p) && IsPath(q) && Text(p) == Text(q)
    ensures p == q
  {
    if p.Root? || q.Root? {
      RootApart(p, q);
    } else {
      SameKind(p, q);
      match p
      case RecordAt(year, id) =>
        JoinCut("records", Join(year, id + ".json"), "records", Join(q.year, q.id + ".json"));
        JoinCut(year, id + ".json", q.year, q.id + ".json");
        SuffixCut(id, q.id, ".json");
      case RawAt(year, id, raw) =>
        JoinCut("raw", Join(year, Join(id, RawText(raw))), "raw", Join(q.year, Join(q.id, RawText(q.raw))));
        JoinCut(year, Join(id, RawText(raw)), q.year, Join(q.id, RawText(q.raw)));
        JoinCut(id, RawText(raw), q.id, RawText(q.raw));
        RawTextInjective(raw, q.raw);
      case SchemaAt(schema) =>
        JoinCut("schema", schema, "schema", q.schema);
    }
  }

  lemma RootApart(p: Path, q: Path)
    requires (p.Root? || q.Root?) && IsPath(p) && IsPath(q) && Text(p) == Text(q)
    ensures p == q
  {
    var below := if p.Root? then q else p;
    match below
    case RecordAt(year, id) => JoinIsNoPart("records", Join(year, id + ".json"));
    case RawAt(year, id, raw) => JoinIsNoPart("raw", Join(year, Join(id, RawText(raw))));
    case SchemaAt(schema) => JoinIsNoPart("schema", schema);
    case Root(name) =>
  }

  /** The first directory of a path below one. */
  function Directory(p: Path): (s: string)
    requires !p.Root?
    ensures IsPart(s)
  {
    if p.RecordAt? then "records" else if p.RawAt? then "raw" else "schema"
  }

  function Below(p: Path): string
    requires !p.Root?
  {
    match p
    case RecordAt(year, id) => Join(year, id + ".json")
    case RawAt(year, id, raw) => Join(year, Join(id, RawText(raw)))
    case SchemaAt(schema) => schema
  }

  lemma SameKind(p: Path, q: Path)
    requires !p.Root? && !q.Root? && Text(p) == Text(q)
    ensures (p.RecordAt? <==> q.RecordAt?) && (p.RawAt? <==> q.RawAt?)
  {
    JoinCut(Directory(p), Below(p), Directory(q), Below(q));
    assert |Directory(p)| == |Directory(q)|;
  }

  /** The `record_path` of a record, as text. */
  lemma RecordPathText(r: Record, id: string, at: string)
    requires IsNamed(r, id, at)
    ensures Text(RecordPath(r)) == "records" + ['/'] + (at[..4] + ['/'] + (id + ".json"))
  {
    NamedPaths(r, id, at);
  }

  lemma IdIsPart(s: string)
    requires IsRecordId(s)
    ensures IsPart(s)
  {
    RecordIdPattern(s);
    var a, b, c :| HasIdParts(s, a, b, c);
    forall i | 0 <= i < |s| ensures s[i] != '/' {
      if i < |a| {
        assert s[i] == a[i];
      } else if |a| < i < |a| + 1 + |b| {
        assert s[i] == b[i - |a| - 1];
      } else if i > |a| + 1 + |b| {
        assert s[i] == c[i - |a| - |b| - 2];
      }
    }
  }

  /** The paths of every record that passes the publisher's checks are such paths. */
  lemma CheckedPaths(year: string, id: string, raw: RawFile)
    requires IsYear(year) && IsRecordId(id)
    ensures IsPath(RecordAt(year, id)) && IsPath(RawAt(year, id, raw))
  {
    IdIsPart(id);
    assert forall i :: 0 <= i < |year| ==> Decimal.IsDigit(year[i]);
  }
}
