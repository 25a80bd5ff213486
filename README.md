# Gene annotator: retry controller and per-gene record assembly

This project models the annotation engine of the myeloma gene annotator,
`utils/annotator.py`, in Dafny and proves properties of it.

- `safe_api_call` sends a GET up to `retries` times. It returns the decoded
  JSON of the first attempt that succeeds. It swallows earlier failures and
  pauses after each one. It re-raises the exception of the last permitted
  attempt. It falls through to `return None` only when it makes no request
  at all.
- `annotate_genes` walks the gene list in order. For each gene it builds a
  seven-column record and fills it from three providers and a link template:
  - MyGene.info: the top hit's summary and the keys of its pathway dictionary.
  - Pharos: the distinct `targetDevelopmentLevel` values.
  - COSMIC: the reported `mutation_count`, or one of two fixed texts.
  - The GeneCards/NCBI link template.

  Each provider has its own rule for writing a failure into its column.

The network is not modelled. What a provider does on the k-th attempt for the
gene at position i of the input is an input, `net.mygene(i)(k)` (likewise for
`pharos` and `cosmic`): either a decoded reply or a failure with a message.
Replies are datatypes holding only the parts the source reads. A missing key
takes the default that the source's `.get` or `in` test falls back on.

Files:
- `wrappers.dfy`: `Option`.
- `text.dfy`: `str.join`, `str.split(", ")`, `str(int)` with its inverse, and
  iteration over a set in an unspecified order.
- `safe_api.dfy`: the retry loop (`SafeApiCall`), the function `Call` that
  specifies it, and lemmas describing `Call` in both directions.
- `annotator.dfy`: reply and record datatypes, the per-field specifications,
  the per-gene method `AnnotateGene`, the table loop `AnnotateGenes`, and
  lemmas about the fields.

The code uses identifiers exactly as given, duplicates included. It keeps no
fallback table and no provenance. `safe_api_call` re-raises, and
`annotate_genes` catches the exception separately for each provider:
- MyGene.info appends " [MyGene error: <message>]" to Description.
- Pharos sets Drugs to "Error: <message>".
- COSMIC drops the message and writes "Mutation data not available".

## Model

| member | source | states |
|---|---|---|
| `SafeApi.CallFrom` | utils/annotator.py:15-24 | Definition: the outcome of the retry loop from a given attempt number on. The first success is returned, the last permitted failure is raised, and otherwise the next attempt is tried. Its properties are the lemmas below. |
| `SafeApi.Call` | utils/annotator.py:14-24 | Definition: the outcome of `safe_api_call` with a given `retries`, the retry loop run from attempt 0. `SafeApiCall` is proved to compute it. |
| `SafeApi.SafeApiCall` | utils/annotator.py:14-24 | The outcome equals `Call`. At most `retries` attempts are made, and none when `retries <= 0`. Every attempt before the last one failed. A returned payload is the last attempt's, and that attempt succeeded. A raised error means all `retries` attempts were made, and it is the last one's exception. The fall-through `None` (`NothingReturned`) comes back exactly when no attempt is made. There is one pause per failed attempt except the last. |
| `SafeApi.CallFirstSuccess` | utils/annotator.py:15-19 | If attempt k is the first success and k < retries, the call returns attempt k's payload. |
| `SafeApi.CallReturnedOnlyFirstSuccess` | utils/annotator.py:15-19 | Conversely, a returned payload belongs to some attempt k < retries that succeeded, and every attempt before k failed. |
| `SafeApi.CallAllFail` | utils/annotator.py:20-23 | If every permitted attempt fails, the exception of attempt `retries - 1` escapes. |
| `SafeApi.CallRaisedOnlyAllFail` | utils/annotator.py:20-22 | Conversely, a raised exception means retries > 0, every permitted attempt failed, and the exception is the last attempt's. |
| `SafeApi.CallNothingIffNoRetries` | utils/annotator.py:15-24 | The fall-through `return None` after the loop is reached if and only if `retries <= 0`. |
| `Text.Join` | utils/annotator.py:61 | Python's `sep.join(parts)`: the parts in order with the separator between neighbours. It is "" for no parts and otherwise begins with the first part. |
| `Text.IntToString` | utils/annotator.py:83 | Python's `str(n)` for an integer: it starts with "-" exactly when n is negative, and the rest is a non-empty run of decimal digits. |
| `Text.SplitJoin` | utils/annotator.py:61 | Splitting a ", "-joined non-empty list at ", " gives the list back, when no part contains ", ". |
| `Text.NatToString` | utils/annotator.py:83 | `str(n)` of a non-negative integer is a non-empty string of decimal digits with no leading zero. |
| `Text.IntToStringRoundTrip` | utils/annotator.py:83 | The integer written by `str(n)` reads back as n, for negative n too. |
| `Text.IterateSet` | utils/annotator.py:73 | Iterating a set visits every element exactly once, in some order. |
| `Text.EnumerationSize` | utils/annotator.py:69-73 | Any such iteration has exactly as many elements as the set. |
| `Text.EnumerationsArePermutations` | utils/annotator.py:73 | Any two iteration orders of the same set are permutations of each other. |
| `Annotator.Links` | utils/annotator.py:97-100 | Definition: the External Links text, the GeneCards link and the NCBI link, each with the gene symbol inserted. |
| `Annotator.LinksDetermineGene` | utils/annotator.py:97-100 | The link template is injective: two genes with the same links are the same gene. |
| `Annotator.MyGeneDescription` | utils/annotator.py:53-63 | The Description after the MyGene.info step. When the call raised r it is " [MyGene error: r]", the error appended to "". When it returned hits and the top hit has a summary, it is that summary. Otherwise it is "". |
| `Annotator.MyGenePathways` | utils/annotator.py:56-61 | The MyGene.info pathways column. It is "" when the call raised. It is non-empty only when the top hit's pathway is a dictionary with at least one key; the keys that column holds are `PathwaysAreTopHitKeys`. A missing pathway counts as the empty dictionary. |
| `Annotator.PathwaysAreTopHitKeys` | utils/annotator.py:56-61 | When the top hit's pathway is a non-empty dictionary whose keys contain no ", ", splitting the pathways column gives exactly those keys, in order. |
| `Annotator.DevLevels` | utils/annotator.py:69-72 | The set of `targetDevelopmentLevel` values: a string is in it exactly when some target carries it as its level. |
| `Annotator.CollectDevLevels` | utils/annotator.py:69-72 | The loop collects exactly the development levels of the targets that carry one. |
| `Annotator.PharosDrugs` | utils/annotator.py:66-75 | Definition: the Drugs values the Pharos step may leave: any ordering of the distinct levels, ", "-joined, when targets are present and non-empty; "Error: r" when the call raised r; "" otherwise. |
| `Annotator.PharosPartsAreLevels` | utils/annotator.py:66-75 | With a non-empty target list and no level containing ", ", the parts of the Drugs column are the distinct levels: each level once, no other part, as many parts as levels. With no level at all the column is "". |
| `Annotator.PharosDrugsUpToOrder` | utils/annotator.py:69-73 | Two Drugs values allowed for the same reply are joins of permutations of one list. |
| `Annotator.CosmicInfo` | utils/annotator.py:78-88 | The COSMIC column is never empty. It is "Mutation data not available" exactly when the call failed. It is "No mutation data found" exactly when the call succeeded without a count. |
| `Annotator.CosmicRoundTrip` | utils/annotator.py:82-83 | The count can be read back from the COSMIC column exactly when COSMIC reported one, and it is the reported number. |
| `Annotator.Annotates` | utils/annotator.py:41-100 | Definition: the record for one gene against its position's replies: each column as the provider rules above give it, the MSigDB column "", and the link template of the gene. |
| `Annotator.AnnotateGene` | utils/annotator.py:41-100 | The record has the gene as given. Description and pathways follow the MyGene.info rules. The MSigDB column stays "". Drugs follows the Pharos rules, COSMIC its three cases, and the links are the template built from the gene alone, whatever the providers return. |
| `Annotator.MyGeneOutage` | utils/annotator.py:53-63 | If all three MyGene.info attempts fail, Description is " [MyGene error: r]" with the last failure r, and pathways is "". |
| `Annotator.PharosOutage` | utils/annotator.py:66-75 | If all three Pharos attempts fail, Drugs is "Error: r" with the last failure r. |
| `Annotator.CosmicOutage` | utils/annotator.py:78-88 | If all three COSMIC attempts fail, the COSMIC column is "Mutation data not available". |
| `Annotator.CosmicRecoversOnThirdAttempt` | utils/annotator.py:78-83 | COSMIC failing twice and then reporting n still gives "Mutations reported: n", and n reads back from the column. |
| `Annotator.AnnotationsAgree` | utils/annotator.py:41-100 | Two records for the same gene and replies agree on every column. The Drugs column may differ only in the order of its levels. |
| `Annotator.AnnotateGenes` | utils/annotator.py:41-102 | There is one record per input gene, in input order. Record i is the record for gene i, built against that gene's own replies. |
| `Annotator.GeneColumnMatches` | utils/annotator.py:41-102 | The table `AnnotateGenes` promises (record i annotates gene i) has exactly the input list as its Gene column: nothing dropped, nothing reordered, duplicates kept. |

## Left out

- HTTP transport is not modelled: `requests.get`, the 10-second timeout, `raise_for_status` and JSON decoding. Each attempt is an abstract outcome, either a decoded reply or a failure message.
- The text of an exception (`str(e)`) is an opaque string carried by the failure.
- `SafeApi.SafeApiCall` does not model `time.sleep` or the length of `delay`. It only counts the pauses.
- The URL and query parameters of each request are not modelled. The replies are indexed by gene position instead.
- The MSigDB/Enrichr enrichment block and the MSigDB Hallmark column are not modelled, because they depend on the third-party `gseapy` library and on pandas regex filtering. The model covers the run where no enrichment result is available, so that column keeps its initial "".
- The final `pd.DataFrame` is not modelled. The result is a sequence of records.
- Genes are strings. The source joins the gene list at line 30, outside any `try`, so a non-string entry (such as a float NaN from a blank spreadsheet cell) makes `annotate_genes` raise `TypeError` before any record is built. The model does not cover that failure.
- Reply shapes are typed, so type errors that Python's dynamic typing would reach are out of the model. For example, the model does not cover a non-string `targetDevelopmentLevel` making `join` raise, or `hits` not being a list.
- A `summary` present with JSON `null` is treated as a missing summary. The source would put `None` into that column.
- `mutation_count` is modelled as an integer. The source formats any JSON value.
- A decoded JSON `null` (or other falsy) body is represented by the empty reply: `MyGeneReply([])`, `PharosReply(None)` or `CosmicReply(None)`. The source treats a falsy payload exactly as it treats these replies. Since every provider call uses three retries, `NothingReturned` never arises inside `annotate_genes`.
- `app.py` (upload, display, chart, search, CSV download) is user interface code and is not part of this model.
