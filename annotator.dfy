/**
 * `annotate_genes` (utils/annotator.py): one fixed-shape record per gene
 * symbol, in input order, filled from MyGene.info, Pharos and COSMIC replies
 * and a GeneCards/NCBI link template.
 *
 * Each provider is reached through `safe_api_call` with its default of three
 * attempts. The network is a `Network` value: for the gene at position `i`
 * of the input and attempt `k`, `net.mygene(i)(k)` says what the k-th
 * MyGene.info request for that gene produced (and likewise for Pharos and
 * COSMIC). Replies are the decoded JSON, reduced to the parts the source
 * reads; a key the reply lacks is given the default the source's `.get`
 * or `in` test falls back on.
 */
module Annotator {
  import opened Wrappers
  import opened Text
  import opened SafeApi

  /** The default `retries` of `safe_api_call`, which every provider call uses. */
  const Retries: int := 3

  // ---------------------------------------------------------------- replies

  /** The `pathway` entry of a MyGene.info hit: missing, a dictionary (only its keys matter), or anything else. */
  datatype Pathway = Absent | Dict(keys: seq<string>) | NotDict

  /** One MyGene.info hit: its `summary` (if present) and its `pathway`. */
  datatype Hit = Hit(summary: Option<string>, pathway: Pathway)

  /** A MyGene.info query reply; a reply without `hits` has none. */
  datatype MyGeneReply = MyGeneReply(hits: seq<Hit>)

  /** One Pharos target; `devLevel` is its `targetDevelopmentLevel`, if present. */
  datatype Target = Target(devLevel: Option<string>)

  /** A Pharos reply; `targets` is None when the key is missing. */
  datatype PharosReply = PharosReply(targets: Option<seq<Target>>)

  /** A COSMIC reply; `mutationCount` is its `mutation_count`, if present. */
  datatype CosmicReply = CosmicReply(mutationCount: Option<int>)

  /** What each provider does, per input position and attempt number. */
  datatype Network = Network(
    mygene: nat -> nat -> Attempt<MyGeneReply>,
    pharos: nat -> nat -> Attempt<PharosReply>,
    cosmic: nat -> nat -> Attempt<CosmicReply>)

  // ---------------------------------------------------------------- records

  /**
   * The `gene_data` dictionary with its seven columns: "Gene", "Description",
   * "Pathways (MyGene.info)", "MSigDB Hallmark Pathways", "Drugs (Pharos)",
   * "COSMIC Mutation Info", "External Links".
   */
  datatype Record = Record(
    gene: string,
    description: string,
    pathways: string,
    hallmark: string,
    drugs: string,
    mutationInfo: string,
    links: string)

  const GeneCardsPrefix := "[GeneCards](https://www.genecards.org/cgi-bin/carddisp.pl?gene="
  const NcbiPrefix := ") | [NCBI](https://www.ncbi.nlm.nih.gov/gene/?term="
  const LinksSuffix := ")"

  /** The "External Links" template, built from the gene symbol alone. */
  function Links(gene: string): string {
    GeneCardsPrefix + gene + NcbiPrefix + gene + LinksSuffix
  }

  /** The link template determines the gene: different symbols never share links. */
  lemma LinksDetermineGene(g1: string, g2: string)
    requires Links(g1) == Links(g2)
    ensures g1 == g2
  {
    var n := |GeneCardsPrefix|;
    assert |Links(g1)| == n + |NcbiPrefix| + |LinksSuffix| + 2 * |g1|;
    assert |g1| == |g2|;
    assert Links(g1)[n..n + |g1|] == g1;
    assert Links(g2)[n..n + |g2|] == g2;
  }

  // ---------------------------------------------------------- MyGene.info

  /** The "Description" the MyGene.info step leaves. */
  function MyGeneDescription(res: CallResult<MyGeneReply>): (description: string)
    ensures res.Raised? ==> description == " [MyGene error: " + res.reason + "]"
    ensures res.Returned? && |res.payload.hits| > 0 && res.payload.hits[0].summary.Some? ==>
              description == res.payload.hits[0].summary.value
    ensures !res.Raised? && !(res.Returned? && |res.payload.hits| > 0 && res.payload.hits[0].summary.Some?) ==>
              description == ""
  {
    match res
    case Returned(reply) => if |reply.hits| > 0 then reply.hits[0].summary.GetOr("") else ""
    case NothingReturned => ""
    case Raised(e) => "" + " [MyGene error: " + e + "]"
  }

  /** The "Pathways (MyGene.info)" the MyGene.info step leaves. */
  function MyGenePathways(res: CallResult<MyGeneReply>): (pathways: string)
    ensures res.Raised? ==> pathways == ""
    ensures pathways != "" ==>
              && res.Returned? && |res.payload.hits| > 0
              && res.payload.hits[0].pathway.Dict? && |res.payload.hits[0].pathway.keys| > 0
  {
    match res
    case Returned(reply) =>
      if |reply.hits| > 0 then
        match reply.hits[0].pathway
        case Absent => Join(", ", [])
        case Dict(keys) => Join(", ", keys)
        case NotDict => ""
      else ""
    case NothingReturned => ""
    case Raised(_) => ""
  }

  /** The pathways column lists exactly the top hit's pathway keys, in their order. */
  lemma PathwaysAreTopHitKeys(reply: MyGeneReply)
    requires |reply.hits| > 0 && reply.hits[0].pathway.Dict?
    requires |reply.hits[0].pathway.keys| > 0
    requires forall i :: 0 <= i < |reply.hits[0].pathway.keys| ==> NoComma(reply.hits[0].pathway.keys[i])
    ensures SplitComma(MyGenePathways(Returned(reply))) == reply.hits[0].pathway.keys
  {
    SplitJoin(reply.hits[0].pathway.keys);
  }

  // ---------------------------------------------------------------- Pharos

  /** The distinct `targetDevelopmentLevel` values, over the targets that have one. */
  function DevLevels(targets: seq<Target>): (levels: set<string>)
    ensures forall x :: x in levels <==> exists k :: 0 <= k < |targets| && targets[k].devLevel == Some(x)
  {
    set t | t in targets && t.devLevel.Some? :: t.devLevel.value
  }

  /** The loop that collects the development levels into a set. */
  method CollectDevLevels(targets: seq<Target>) returns (levels: set<string>)
    ensures levels == DevLevels(targets)
  {
    levels := {};
    for k := 0 to |targets|
      invariant levels == DevLevels(targets[..k])
    {
      assert targets[..k + 1] == targets[..k] + [targets[k]];
      if targets[k].devLevel.Some? {
        levels := levels + {targets[k].devLevel.value};
      }
    }
    assert targets[..|targets|] == targets;
  }

  /**
   * The "Drugs (Pharos)" values the Pharos step may leave: the set's
   * iteration order is unspecified, so any order of the levels is allowed.
   */
  ghost predicate PharosDrugs(res: CallResult<PharosReply>, drugs: string) {
    match res
    case Returned(reply) =>
      if reply.targets.Some? && |reply.targets.value| > 0 then
        exists p :: Enumerates(p, DevLevels(reply.targets.value)) && drugs == Join(", ", p)
      else drugs == ""
    case NothingReturned => drugs == ""
    case Raised(e) => drugs == "Error: " + e
  }

  /**
   * When Pharos answers with targets, the comma-separated parts of the column
   * are the distinct development levels, each once; with no level at all, the
   * column stays empty.
   */
  lemma PharosPartsAreLevels(targets: seq<Target>, drugs: string)
    requires |targets| > 0
    requires PharosDrugs(Returned(PharosReply(Some(targets))), drugs)
    requires forall x :: x in DevLevels(targets) ==> NoComma(x)
    ensures DevLevels(targets) == {} ==> drugs == ""
    ensures DevLevels(targets) != {} ==>
              && Distinct(SplitComma(drugs))
              && (forall x :: x in SplitComma(drugs) <==> x in DevLevels(targets))
              && |SplitComma(drugs)| == |DevLevels(targets)|
  {
    var p :| Enumerates(p, DevLevels(targets)) && drugs == Join(", ", p);
    EnumerationSize(p, DevLevels(targets));
    if DevLevels(targets) != {} {
      assert forall i :: 0 <= i < |p| ==> NoComma(p[i]);
      SplitJoin(p);
    }
  }

  /** Two values the Pharos step may leave for the same reply list the same levels, in some order. */
  lemma PharosDrugsUpToOrder(targets: seq<Target>, d1: string, d2: string)
    requires |targets| > 0
    requires PharosDrugs(Returned(PharosReply(Some(targets))), d1)
    requires PharosDrugs(Returned(PharosReply(Some(targets))), d2)
    ensures exists p1, p2 :: d1 == Join(", ", p1) && d2 == Join(", ", p2) && multiset(p1) == multiset(p2)
  {
    var p1 :| Enumerates(p1, DevLevels(targets)) && d1 == Join(", ", p1);
    var p2 :| Enumerates(p2, DevLevels(targets)) && d2 == Join(", ", p2);
    EnumerationsArePermutations(p1, p2, DevLevels(targets));
  }

  // ---------------------------------------------------------------- COSMIC

  const MutationsPrefix := "Mutations reported: "
  const NoMutationData := "No mutation data found"
  const MutationDataUnavailable := "Mutation data not available"

  /** The "COSMIC Mutation Info" the COSMIC step leaves: never empty, and one of three forms. */
  function CosmicInfo(res: CallResult<CosmicReply>): (info: string)
    ensures info != ""
    ensures info == MutationDataUnavailable <==> res.Raised?
    ensures info == NoMutationData <==> !res.Raised? && !(res.Returned? && res.payload.mutationCount.Some?)
  {
    match res
    case Returned(CosmicReply(Some(n))) =>
      var info := MutationsPrefix + IntToString(n);
      assert info[0] != NoMutationData[0];
      assert info[8] != MutationDataUnavailable[8];
      info
    case Returned(CosmicReply(None)) => NoMutationData
    case NothingReturned => NoMutationData
    case Raised(_) => MutationDataUnavailable
  }

  /** Reads the mutation count back out of a "COSMIC Mutation Info" value. */
  function ReadMutationCount(info: string): Option<int> {
    if |info| >= |MutationsPrefix| && info[..|MutationsPrefix|] == MutationsPrefix
    then ParseInt(info[|MutationsPrefix|..])
    else None
  }

  /** The COSMIC column carries the reported count, and only when COSMIC reported one. */
  lemma CosmicRoundTrip(res: CallResult<CosmicReply>)
    ensures ReadMutationCount(CosmicInfo(res)) ==
              if res.Returned? && res.payload.mutationCount.Some? then res.payload.mutationCount else None
  {
    var info := CosmicInfo(res);
    if res.Returned? && res.payload.mutationCount.Some? {
      var n := res.payload.mutationCount.value;
      assert info[..|MutationsPrefix|] == MutationsPrefix;
      assert info[|MutationsPrefix|..] == IntToString(n);
      IntToStringRoundTrip(n);
    } else if res.Raised? {
      assert info[8] != MutationsPrefix[8];
    } else {
      assert info[0] != MutationsPrefix[0];
    }
  }

  // ---------------------------------------------------------------- one gene

  /** The record the source builds for `gene`, at position `i` of the input, against `net`. */
  ghost predicate Annotates(gene: string, i: nat, net: Network, rec: Record) {
    var mg := Call(Retries, net.mygene(i));
    && rec.gene == gene
    && rec.description == MyGeneDescription(mg)
    && rec.pathways == MyGenePathways(mg)
    && rec.hallmark == ""
    && PharosDrugs(Call(Retries, net.pharos(i)), rec.drugs)
    && rec.mutationInfo == CosmicInfo(Call(Retries, net.cosmic(i)))
    && rec.links == Links(gene)
  }

  /** The body of the per-gene loop: fill the record field by field, one provider after another. */
  method AnnotateGene(gene: string, i: nat, net: Network) returns (rec: Record)
    ensures Annotates(gene, i, net, rec)
  {
    rec := Record(gene, "", "", "", "", "", "");

    // MyGene.info
    var mg, mgAttempts, mgDelays := SafeApiCall(Retries, net.mygene(i));
    match mg {
      case Returned(reply) =>
        var hits := reply.hits;
        if |hits| > 0 {
          var top := hits[0];
          rec := rec.(description := top.summary.GetOr(""));
          var pathway := if top.pathway.Absent? then Dict([]) else top.pathway;
          if pathway.Dict? {
            rec := rec.(pathways := Join(", ", pathway.keys));
          }
        }
      case NothingReturned =>
      case Raised(e) =>
        rec := rec.(description := rec.description + " [MyGene error: " + e + "]");
    }
    assert rec.gene == gene && rec.description == MyGeneDescription(mg) && rec.pathways == MyGenePathways(mg);

    // Pharos
    var ph, phAttempts, phDelays := SafeApiCall(Retries, net.pharos(i));
    match ph {
      case Returned(reply) =>
        if reply.targets.Some? && |reply.targets.value| > 0 {
          var levels := CollectDevLevels(reply.targets.value);
          var order := IterateSet(levels);
          rec := rec.(drugs := Join(", ", order));
        }
      case NothingReturned =>
      case Raised(e) =>
        rec := rec.(drugs := "Error: " + e);
    }

    // COSMIC
    var cs, csAttempts, csDelays := SafeApiCall(Retries, net.cosmic(i));
    match cs {
      case Returned(reply) =>
        if reply.mutationCount.Some? {
          rec := rec.(mutationInfo := MutationsPrefix + IntToString(reply.mutationCount.value));
        } else {
          rec := rec.(mutationInfo := NoMutationData);
        }
      case NothingReturned =>
        rec := rec.(mutationInfo := NoMutationData);
      case Raised(_) =>
        rec := rec.(mutationInfo := MutationDataUnavailable);
    }

    // External links
    rec := rec.(links := Links(gene));
  }

  /** A provider that never answers costs only its own column; the rest of the record is unaffected. */
  lemma MyGeneOutage(gene: string, i: nat, net: Network, rec: Record)
    requires forall k: nat :: k < Retries ==> net.mygene(i)(k).Failure?
    requires Annotates(gene, i, net, rec)
    ensures rec.description == " [MyGene error: " + net.mygene(i)(Retries - 1).reason + "]"
    ensures rec.pathways == ""
  {
    CallAllFail(Retries, net.mygene(i));
  }

  lemma PharosOutage(gene: string, i: nat, net: Network, rec: Record)
    requires forall k: nat :: k < Retries ==> net.pharos(i)(k).Failure?
    requires Annotates(gene, i, net, rec)
    ensures rec.drugs == "Error: " + net.pharos(i)(Retries - 1).reason
  {
    CallAllFail(Retries, net.pharos(i));
  }

  lemma CosmicOutage(gene: string, i: nat, net: Network, rec: Record)
    requires forall k: nat :: k < Retries ==> net.cosmic(i)(k).Failure?
    requires Annotates(gene, i, net, rec)
    ensures rec.mutationInfo == MutationDataUnavailable
  {
    CallAllFail(Retries, net.cosmic(i));
  }

  /** COSMIC failing twice and then answering still yields the reported count. */
  lemma CosmicRecoversOnThirdAttempt(gene: string, i: nat, net: Network, rec: Record, n: int)
    requires net.cosmic(i)(0).Failure? && net.cosmic(i)(1).Failure?
    requires net.cosmic(i)(2) == Success(CosmicReply(Some(n)))
    requires Annotates(gene, i, net, rec)
    ensures rec.mutationInfo == MutationsPrefix + IntToString(n)
    ensures ReadMutationCount(rec.mutationInfo) == Some(n)
  {
    CallFirstSuccess(Retries, net.cosmic(i), 2);
    CosmicRoundTrip(Call(Retries, net.cosmic(i)));
  }

  /** Two records for the same gene and replies agree on every column, the Pharos one up to the order of its levels. */
  lemma AnnotationsAgree(gene: string, i: nat, net: Network, r1: Record, r2: Record)
    requires Annotates(gene, i, net, r1) && Annotates(gene, i, net, r2)
    ensures r1.(drugs := "") == r2.(drugs := "")
    ensures exists p1, p2 :: r1.drugs == Join(", ", p1) && r2.drugs == Join(", ", p2) && multiset(p1) == multiset(p2)
  {
    var ph := Call(Retries, net.pharos(i));
    if ph.Returned? && ph.payload.targets.Some? && |ph.payload.targets.value| > 0 {
      PharosDrugsUpToOrder(ph.payload.targets.value, r1.drugs, r2.drugs);
    } else {
      assert r1.drugs == r2.drugs;
      assert r1.drugs == Join(", ", [r1.drugs]);
    }
  }

  // ---------------------------------------------------------------- the table

  /** The "Gene" column of a table. */
  function GeneColumn(table: seq<Record>): (column: seq<string>)
    ensures |column| == |table|
    decreases |table|
  {
    if table == [] then [] else [table[0].gene] + GeneColumn(table[1..])
  }

  lemma {:induction false} GeneColumnAt(table: seq<Record>, k: nat)
    requires k < |table|
    ensures GeneColumn(table)[k] == table[k].gene
  {
    if k > 0 {
      GeneColumnAt(table[1..], k - 1);
    } else if |table| > 1 {
      GeneColumnAt(table[1..], 0);
    }
  }

  /**
   * A table whose i-th record is for the i-th gene, as `AnnotateGenes`
   * promises, has exactly the input list as its Gene column: nothing dropped,
   * nothing reordered, duplicates kept.
   */
  lemma GeneColumnMatches(genes: seq<string>, net: Network, table: seq<Record>)
    requires |table| == |genes|
    requires forall i :: 0 <= i < |genes| ==> Annotates(genes[i], i, net, table[i])
    ensures GeneColumn(table) == genes
  {
    forall k | 0 <= k < |table| ensures table[k].gene == genes[k] {
      assert Annotates(genes[k], k, net, table[k]);
    }
    GeneColumnPointwise(table, genes);
  }

  lemma GeneColumnPointwise(table: seq<Record>, genes: seq<string>)
    requires |table| == |genes|
    requires forall k :: 0 <= k < |table| ==> table[k].gene == genes[k]
    ensures GeneColumn(table) == genes
  {
    forall k | 0 <= k < |table| ensures GeneColumn(table)[k] == genes[k] {
      GeneColumnAt(table, k);
    }
  }

  /** The loop over `gene_list`: one record per gene, appended in input order. */
  method AnnotateGenes(genes: seq<string>, net: Network) returns (table: seq<Record>)
    ensures |table| == |genes|
    ensures forall i :: 0 <= i < |genes| ==> Annotates(genes[i], i, net, table[i])
  {
    table := [];
    for i := 0 to |genes|
      invariant |table| == i
      invariant forall j :: 0 <= j < i ==> Annotates(genes[j], j, net, table[j])
    {
      var rec := AnnotateGene(genes[i], i, net);
      table := table + [rec];
    }
  }
}
