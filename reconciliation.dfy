/**
 * The string and bookkeeping logic of the reconciliation service
 * (routes/reconciliation.py): the upload extension check, the keyword-scored
 * column mapping, and how reconcile_transactions splits references into
 * matched, internal-only and provider-only and counts them.
 */
module Reconciliation {
  import opened Wrappers
  import opened Values
  import Text

  // ---------------------------------------------------------------------------
  // allowed_file
  // ---------------------------------------------------------------------------

  const AllowedExtension := "csv"

  /** Position of the last '.', as `rsplit('.', 1)` splits there. */
  function LastDot(s: string): (r: Option<nat>)
    ensures r.Some? ==> r.value < |s| && s[r.value] == '.' && forall j :: r.value < j < |s| ==> s[j] != '.'
    ensures r.None? ==> forall j :: 0 <= j < |s| ==> s[j] != '.'
    decreases |s|
  {
    if s == [] then None
    else if s[|s| - 1] == '.' then Some(|s| - 1)
    else LastDot(s[..|s| - 1])
  }

  /** `'.' in filename and filename.rsplit('.', 1)[1].lower() in {'csv'}`. */
  predicate AllowedFile(filename: string): (allowed: bool)
    ensures allowed ==> '.' in filename
    ensures allowed ==> |filename| >= 4 && filename[|filename| - 4] == '.'
  {
    match LastDot(filename)
    case None => false
    case Some(i) => Text.Lower(filename[i + 1..]) == AllowedExtension
  }

  /** Equivalently: the name ends in ".csv", in any letter case. */
  lemma AllowedFileSuffix(filename: string)
    ensures AllowedFile(filename) <==> |filename| >= 4 && Text.Lower(filename[|filename| - 4..]) == ".csv"
  {
    var n := |filename|;
    if AllowedFile(filename) {
      AllowedHasSuffix(filename);
    }
    if n >= 4 && Text.Lower(filename[n - 4..]) == ".csv" {
      SuffixIsAllowed(filename);
    }
  }

  lemma AllowedHasSuffix(filename: string)
    requires AllowedFile(filename)
    ensures |filename| >= 4 && Text.Lower(filename[|filename| - 4..]) == ".csv"
  {
    var n := |filename|;
    var i := LastDot(filename).value;
    assert |filename[i + 1..]| == 3;
    assert filename[n - 4..] == [filename[i]] + filename[i + 1..];
    assert Text.Lower(filename[n - 4..]) == [Text.LowerChar('.')] + Text.Lower(filename[i + 1..]);
  }

  lemma SuffixIsAllowed(filename: string)
    requires |filename| >= 4 && Text.Lower(filename[|filename| - 4..]) == ".csv"
    ensures AllowedFile(filename)
  {
    var n := |filename|;
    var suffix := filename[n - 4..];
    assert filename[n - 4] == '.' by {
      assert Text.LowerChar(suffix[0]) == '.';
    }
    forall j | n - 4 < j < n
      ensures filename[j] != '.'
    {
      assert Text.LowerChar(suffix[j - (n - 4)]) != '.';
    }
    var i := LastDot(filename).value;
    assert i == n - 4;
    assert Text.Lower(filename[i + 1..]) == Text.Lower(suffix)[1..];
  }

  /** File names the back-end tests accept, whatever the case of the extension. */
  lemma AcceptedFileNames()
    ensures AllowedFile("test.csv") && AllowedFile("data.CSV") && AllowedFile("data.backup.csv")
  {
    AllowedFileSuffix("test.csv");
    assert "test.csv"[4..] == ".csv";
    AllowedFileSuffix("data.CSV");
    assert "data.CSV"[4..] == ".CSV";
    AllowedFileSuffix("data.backup.csv");
    assert "data.backup.csv"[11..] == ".csv";
  }

  /** File names the back-end tests reject: no dot at all, or another last extension. */
  lemma RejectedFileNames()
    ensures !AllowedFile("") && !AllowedFile("filename") && !AllowedFile("file.csv.txt") && !AllowedFile("test.txt")
  {
    AllowedFileSuffix("file.csv.txt");
    assert "file.csv.txt"[8..] == ".txt";
    AllowedFileSuffix("test.txt");
    assert "test.txt"[4..] == ".txt";
  }

  // ---------------------------------------------------------------------------
  // map_columns
  // ---------------------------------------------------------------------------

  /** The standard fields, in the order in which ties are broken. */
  const StandardFields: seq<string> :=
    ["transaction_reference", "amount", "status", "transaction_date", "transaction_currency"]

  const ReferenceKeywords: seq<string> := ["reference", "id", "txn_id", "transaction_id", "ref", "txn_ref", "trans_id"]
  const AmountKeywords: seq<string> := ["amount", "value", "total", "sum", "price", "cost", "fee", "charge"]
  const StatusKeywords: seq<string> := ["status", "state", "condition", "stage", "phase"]
  const DateKeywords: seq<string> := ["date", "time", "timestamp", "created", "processed"]
  const CurrencyKeywords: seq<string> := ["currency", "curr", "ccy"]

  /** Keyword list i belongs to standard field i. */
  const KeywordLists: seq<seq<string>> :=
    [ReferenceKeywords, AmountKeywords, StatusKeywords, DateKeywords, CurrencyKeywords]

  /** `header.lower().replace('_', ' ').replace('-', ' ')`. */
  function Normalize(header: string): (n: string)
    ensures |n| == |header|
    ensures forall i :: 0 <= i < |n| ==>
              n[i] == if header[i] == '_' || header[i] == '-' then ' ' else Text.LowerChar(header[i])
    ensures forall i :: 0 <= i < |n| ==> n[i] != '_' && n[i] != '-' && !Text.IsUpper(n[i])
  {
    Text.ReplaceChar(Text.ReplaceChar(Text.Lower(header), '_', ' '), '-', ' ')
  }

  /** The positions of the keywords that occur in the text. */
  ghost function Hits(keywords: seq<string>, text: string): set<nat> {
    set k: nat | k < |keywords| && Text.Contains(text, keywords[k])
  }

  /** The hits of a list are those of all but its last keyword, and the last one if it occurs. */
  lemma HitsSnoc(keywords: seq<string>, text: string)
    requires keywords != []
    ensures var n := |keywords| - 1;
            Hits(keywords, text) ==
            Hits(keywords[..n], text) + (if Text.Contains(text, keywords[n]) then {n} else {})
  {
  }

  /**
   * `sum(1 for kw in keywords if kw in text)`: the number of positions of the
   * list whose keyword occurs in the text (a keyword listed twice counts twice).
   */
  function KeywordScore(keywords: seq<string>, text: string): (score: nat)
    ensures score == |Hits(keywords, text)|
    ensures score <= |keywords|
    ensures score == 0 <==> forall k :: 0 <= k < |keywords| ==> !Text.Contains(text, keywords[k])
    decreases |keywords|
  {
    if keywords == [] then
      assert Hits(keywords, text) == {};
      0
    else
      var n := |keywords| - 1;
      var rest := KeywordScore(keywords[..n], text);
      HitsSnoc(keywords, text);
      assert n !in Hits(keywords[..n], text);
      assert forall k :: 0 <= k < n ==> keywords[k] == keywords[..n][k];
      rest + (if Text.Contains(text, keywords[n]) then 1 else 0)
  }

  /**
   * Keywords written with '_' ("txn_id", "transaction_id", "txn_ref",
   * "trans_id") never contribute to a score: the header they are looked for
   * in has had every '_' replaced by a space.
   */
  lemma UnderscoreKeywordNeverMatches(header: string, keyword: string, k: nat)
    requires k < |keyword| && keyword[k] == '_'
    ensures !Text.Contains(Normalize(header), keyword)
  {
    var text := Normalize(header);
    forall i | 0 <= i <= |text| - |keyword|
      ensures !Text.OccursAt(text, keyword, i)
    {
      assert text[i..i + |keyword|][k] == text[i + k];
    }
    Text.ContainsIff(text, keyword);
  }

  /**
   * One score per standard field, in the order of StandardFields: how many
   * of that field's keywords occur in the normalised header.
   */
  function Scores(header: string): (scores: seq<nat>)
    ensures |scores| == |StandardFields|
    ensures forall i :: 0 <= i < |scores| ==>
              scores[i] == |Hits(KeywordLists[i], Normalize(header))| && scores[i] <= |KeywordLists[i]|
  {
    var text := Normalize(header);
    seq(|KeywordLists|, i requires 0 <= i < |KeywordLists| => KeywordScore(KeywordLists[i], text))
  }

  /** `max(scores, key=scores.get)`: the first position holding the largest score. */
  function BestIndex(scores: seq<nat>): (best: nat)
    requires |scores| > 0
    ensures best < |scores|
    ensures forall j :: 0 <= j < |scores| ==> scores[j] <= scores[best]
    ensures forall j :: 0 <= j < best ==> scores[j] < scores[best]
    decreases |scores|
  {
    if |scores| == 1 then 0
    else
      var b := BestIndex(scores[..|scores| - 1]);
      if scores[|scores| - 1] > scores[b] then |scores| - 1 else b
  }

  /** The largest score of a header (`max(scores.values())`). */
  function MaxScore(header: string): nat {
    var scores := Scores(header);
    scores[BestIndex(scores)]
  }

  /** The field a header is scored closest to (`best_match`). */
  function BestField(header: string): string {
    StandardFields[BestIndex(Scores(header))]
  }

  /** The two dicts the loop updates: `mappings` and `confidence_scores`. */
  datatype MappingState = MappingState(mappings: map<string, string>, confidence: map<string, nat>)

  /** `confidence_scores.get(field, 0)`. */
  function Confidence(state: MappingState, field: string): nat {
    if field in state.confidence then state.confidence[field] else 0
  }

  /** The state after `header` is taken up under its best field. */
  function Taken(state: MappingState, header: string): (next: MappingState)
    ensures next.mappings.Keys == state.mappings.Keys + {BestField(header)}
    ensures next.confidence.Keys == state.confidence.Keys + {BestField(header)}
  {
    MappingState(state.mappings[BestField(header) := header],
                 state.confidence[BestField(header) := MaxScore(header)])
  }

  /** The header counts for the field: it matches some keyword and the field is its best. */
  predicate Candidate(header: string, field: string) {
    MaxScore(header) > 0 && BestField(header) == field
  }

  /**
   * One header: mapped to its best field if it scores at all, unless the field
   * already has a header that scored at least as high.
   */
  function Step(state: MappingState, header: string): (next: MappingState)
    ensures MaxScore(header) > 0 &&
            (BestField(header) !in state.mappings || MaxScore(header) > Confidence(state, BestField(header))) ==>
              next == Taken(state, header)
    ensures MaxScore(header) == 0 ||
            (BestField(header) in state.mappings && MaxScore(header) <= Confidence(state, BestField(header))) ==>
              next == state
  {
    if MaxScore(header) == 0 then state
    else
      var field := BestField(header);
      if field !in state.mappings || MaxScore(header) > Confidence(state, field) then Taken(state, header)
      else state
  }

  /** The state after the loop has seen `headers`, first to last. */
  function Mapped(headers: seq<string>): MappingState
    decreases |headers|
  {
    if headers == [] then MappingState(map[], map[])
    else Step(Mapped(headers[..|headers| - 1]), headers[|headers| - 1])
  }

  /** Step in the terms the loop computes: the score table, its first maximum and the stored confidence. */
  lemma StepByScores(state: MappingState, header: string)
    ensures var scores := Scores(header);
            var best := BestIndex(scores);
            var field := StandardFields[best];
            Step(state, header) ==
              if scores[best] > 0 && (field !in state.mappings || scores[best] > Confidence(state, field))
              then MappingState(state.mappings[field := header], state.confidence[field := scores[best]])
              else state
  {
  }

  /** The loop has seen one more header. */
  lemma MappedPrefix(headers: seq<string>, i: nat)
    requires i < |headers|
    ensures Mapped(headers[..i + 1]) == Step(Mapped(headers[..i]), headers[i])
  {
    assert headers[..i + 1][..i] == headers[..i];
  }

  /** `map_columns(headers)`: the loop over the headers. */
  method MapColumns(headers: seq<string>) returns (mappings: map<string, string>)
    ensures mappings == Mapped(headers).mappings
  {
    mappings := map[];
    var confidenceScores: map<string, nat> := map[];
    for i := 0 to |headers|
      invariant MappingState(mappings, confidenceScores) == Mapped(headers[..i])
    {
      var header := headers[i];
      ghost var before := MappingState(mappings, confidenceScores);
      StepByScores(before, header);
      MappedPrefix(headers, i);
      var scores := Scores(header);
      var best := BestIndex(scores);
      var maxScore := scores[best];
      if maxScore > 0 {
        var bestMatch := StandardFields[best];
        var previous := if bestMatch in confidenceScores then confidenceScores[bestMatch] else 0;
        if bestMatch !in mappings || scores[best] > previous {
          mappings := mappings[bestMatch := header];
          confidenceScores := confidenceScores[bestMatch := scores[best]];
        }
      }
    }
    assert headers[..|headers|] == headers;
  }

  /**
   * What the entry for `field` means: a standard field holding a header of
   * the input whose best field it is, with that header's positive top score
   * as its confidence.
   */
  ghost predicate ExplainsField(state: MappingState, headers: seq<string>, field: string)
    requires field in state.mappings && field in state.confidence
  {
    field in StandardFields && state.mappings[field] in headers &&
    BestField(state.mappings[field]) == field &&
    MaxScore(state.mappings[field]) > 0 &&
    state.confidence[field] == MaxScore(state.mappings[field])
  }

  /** The two dicts have the same keys and every entry is explained. */
  ghost predicate Explains(state: MappingState, headers: seq<string>) {
    state.mappings.Keys == state.confidence.Keys &&
    forall field :: field in state.mappings ==> ExplainsField(state, headers, field)
  }

  /** A header that is not taken up leaves every entry explained. */
  lemma ExplainsLonger(state: MappingState, headers: seq<string>, header: string)
    requires Explains(state, headers)
    ensures Explains(state, headers + [header])
  {
    var longer := headers + [header];
    forall field | field in state.mappings
      ensures ExplainsField(state, longer, field)
    {
      assert ExplainsField(state, headers, field);
      assert state.mappings[field] in longer;
    }
  }

  lemma TakenFieldExplained(state: MappingState, headers: seq<string>, header: string)
    requires MaxScore(header) > 0
    ensures ExplainsField(Taken(state, header), headers + [header], BestField(header))
  {
    assert StandardFields[BestIndex(Scores(header))] in StandardFields;
  }

  lemma OtherFieldExplained(state: MappingState, headers: seq<string>, header: string, field: string)
    requires Explains(state, headers)
    requires field in state.mappings && field != BestField(header)
    ensures ExplainsField(Taken(state, header), headers + [header], field)
  {
    var next := Taken(state, header);
    assert ExplainsField(state, headers, field);
    assert next.mappings[field] == state.mappings[field] && next.confidence[field] == state.confidence[field];
    assert state.mappings[field] in headers + [header];
  }

  /** A header that is taken up is explained under its best field; the other entries stay. */
  lemma ExplainsTaken(state: MappingState, headers: seq<string>, header: string)
    requires Explains(state, headers)
    requires MaxScore(header) > 0
    ensures Explains(Taken(state, header), headers + [header])
  {
    var next := Taken(state, header);
    forall field | field in next.mappings
      ensures ExplainsField(next, headers + [header], field)
    {
      if field == BestField(header) {
        TakenFieldExplained(state, headers, header);
      } else {
        OtherFieldExplained(state, headers, header, field);
      }
    }
  }

  /** Explains is kept by one more header. */
  lemma StepExplains(state: MappingState, headers: seq<string>, header: string)
    requires Explains(state, headers)
    ensures Explains(Step(state, header), headers + [header])
  {
    if Step(state, header) == state {
      ExplainsLonger(state, headers, header);
    } else {
      ExplainsTaken(state, headers, header);
    }
  }

  lemma {:induction false} MappedExplained(headers: seq<string>)
    ensures Explains(Mapped(headers), headers)
    decreases |headers|
  {
    if headers != [] {
      var init := headers[..|headers| - 1];
      MappedExplained(init);
      StepExplains(Mapped(init), init, headers[|headers| - 1]);
      assert init + [headers[|headers| - 1]] == headers;
    }
  }

  /** Every result key is a standard field name and every value an input header. */
  lemma MappingKeysAndValues(headers: seq<string>)
    ensures forall field :: field in Mapped(headers).mappings ==>
              field in StandardFields && Mapped(headers).mappings[field] in headers
  {
    MappedExplained(headers);
  }

  /** No two fields are given the same header. */
  lemma MappingInjective(headers: seq<string>, f: string, g: string)
    requires f in Mapped(headers).mappings && g in Mapped(headers).mappings && f != g
    ensures Mapped(headers).mappings[f] != Mapped(headers).mappings[g]
  {
    MappedExplained(headers);
  }

  /** Each mapped header is one of the input headers, and it scores. */
  lemma MappedHeaderScores(headers: seq<string>, field: string)
    requires field in Mapped(headers).mappings
    ensures Mapped(headers).mappings[field] in headers
    ensures MaxScore(Mapped(headers).mappings[field]) > 0
  {
    MappedExplained(headers);
    assert ExplainsField(Mapped(headers), headers, field);
  }

  /** A header that matches no keyword is never mapped; headers that all miss give an empty result. */
  lemma UnscoredHeadersIgnored(headers: seq<string>)
    requires forall h :: h in headers ==> MaxScore(h) == 0
    ensures Mapped(headers).mappings == map[]
  {
    var m := Mapped(headers).mappings;
    if m != map[] {
      var f :| f in m;
      MappedHeaderScores(headers, f);
    }
  }

  /** A single scoring header goes to the first field among those with its top score. */
  lemma SingleHeaderTieBreak(header: string)
    requires MaxScore(header) > 0
    ensures Mapped([header]).mappings == map[BestField(header) := header]
    ensures forall i :: 0 <= i < |StandardFields| && StandardFields[i] != BestField(header) ==>
              Scores(header)[i] < MaxScore(header) ||
              (Scores(header)[i] == MaxScore(header) && BestIndex(Scores(header)) < i)
  {
    assert [header][..0] == [];
    var scores := Scores(header);
    var b := BestIndex(scores);
    forall i | 0 <= i < |StandardFields| && StandardFields[i] != BestField(header)
      ensures scores[i] < scores[b] || (scores[i] == scores[b] && b < i)
    {
      assert i != b;
    }
  }

  /** The loop takes one more header. */
  lemma MappedAppend(headers: seq<string>, header: string)
    ensures Mapped(headers + [header]) == Step(Mapped(headers), header)
  {
    assert (headers + [header])[..|headers|] == headers;
  }

  /** A later header that does not beat the recorded confidence leaves the earlier one in place. */
  lemma EarlierHeaderKept(headers: seq<string>, header: string)
    requires BestField(header) in Mapped(headers).mappings
    requires MaxScore(header) <= Confidence(Mapped(headers), BestField(header))
    ensures Mapped(headers + [header]) == Mapped(headers)
  {
    MappedAppend(headers, header);
  }

  /** A later header with a strictly higher score takes the field over. */
  lemma LaterHeaderWins(headers: seq<string>, header: string)
    requires BestField(header) in Mapped(headers).mappings
    requires MaxScore(header) > Confidence(Mapped(headers), BestField(header))
    ensures Mapped(headers + [header]).mappings == Mapped(headers).mappings[BestField(header) := header]
  {
    MappedAppend(headers, header);
  }

  /**
   * Header j is the one kept for the field: a candidate for it that scores
   * strictly more than every earlier candidate and at least as much as every
   * later one.
   */
  ghost predicate Winner(headers: seq<string>, field: string, j: int) {
    0 <= j < |headers| && Candidate(headers[j], field) &&
    (forall i :: 0 <= i < j && Candidate(headers[i], field) ==> MaxScore(headers[i]) < MaxScore(headers[j])) &&
    (forall i :: j < i < |headers| && Candidate(headers[i], field) ==> MaxScore(headers[i]) <= MaxScore(headers[j]))
  }

  /** At most one header wins a field. */
  lemma WinnerUnique(headers: seq<string>, field: string, j: int, k: int)
    requires Winner(headers, field, j) && Winner(headers, field, k)
    ensures j == k
  {
  }

  /** Some header is a candidate for the field. */
  ghost predicate HasCandidate(headers: seq<string>, field: string) {
    exists j :: 0 <= j < |headers| && Candidate(headers[j], field)
  }

  /** The property MappedWinner states, for one list of headers. */
  ghost predicate KeepsWinner(headers: seq<string>, field: string) {
    (field in Mapped(headers).mappings <==> HasCandidate(headers, field)) &&
    (field in Mapped(headers).mappings ==>
       exists j :: Winner(headers, field, j) && Mapped(headers).mappings[field] == headers[j])
  }

  lemma HasCandidateSnoc(headers: seq<string>, header: string, field: string)
    ensures HasCandidate(headers + [header], field) <==> HasCandidate(headers, field) || Candidate(header, field)
  {
    var longer := headers + [header];
    assert forall i :: 0 <= i < |headers| ==> longer[i] == headers[i];
    assert longer[|headers|] == header;
    if HasCandidate(longer, field) {
      var j :| 0 <= j < |longer| && Candidate(longer[j], field);
      if j < |headers| {
        assert Candidate(headers[j], field);
      }
    }
  }

  /** A winner of the shorter list stays the winner when a non-candidate comes last. */
  lemma WinnerKeptByOther(headers: seq<string>, header: string, field: string, j: int)
    requires Winner(headers, field, j) && !Candidate(header, field)
    ensures Winner(headers + [header], field, j)
  {
    var longer := headers + [header];
    assert forall i :: 0 <= i < |headers| ==> longer[i] == headers[i];
  }

  /** A winner of the shorter list stays the winner when the last candidate does not beat it. */
  lemma WinnerKeptByLower(headers: seq<string>, header: string, field: string, j: int)
    requires Winner(headers, field, j) && MaxScore(header) <= MaxScore(headers[j])
    ensures Winner(headers + [header], field, j)
  {
    var longer := headers + [header];
    assert forall i :: 0 <= i < |headers| ==> longer[i] == headers[i];
  }

  /** The last header wins when it beats the previous winner. */
  lemma LastWinsOverWinner(headers: seq<string>, header: string, field: string, j: int)
    requires Winner(headers, field, j) && Candidate(header, field) && MaxScore(header) > MaxScore(headers[j])
    ensures Winner(headers + [header], field, |headers|)
  {
    var longer := headers + [header];
    assert forall i :: 0 <= i < |headers| ==> longer[i] == headers[i];
    forall i | 0 <= i < |headers| && Candidate(longer[i], field)
      ensures MaxScore(longer[i]) < MaxScore(header)
    {
      if i != j {
        assert Candidate(headers[i], field);
      }
    }
  }

  /** The last header wins when no earlier header was a candidate. */
  lemma LastWinsAlone(headers: seq<string>, header: string, field: string)
    requires Candidate(header, field) && !HasCandidate(headers, field)
    ensures Winner(headers + [header], field, |headers|)
  {
    var longer := headers + [header];
    assert forall i :: 0 <= i < |headers| ==> longer[i] == headers[i];
  }

  /** A header that is no candidate for the field leaves the field's entry as it was. */
  lemma StepOtherField(state: MappingState, header: string, field: string)
    requires !Candidate(header, field)
    ensures field in Step(state, header).mappings <==> field in state.mappings
    ensures field in state.mappings ==> Step(state, header).mappings[field] == state.mappings[field]
  {
  }

  /** The last header is no candidate for the field. */
  lemma KeepsWinnerOther(headers: seq<string>, header: string, field: string)
    requires KeepsWinner(headers, field) && !Candidate(header, field)
    ensures KeepsWinner(headers + [header], field)
  {
    var st := Mapped(headers);
    MappedAppend(headers, header);
    StepOtherField(st, header, field);
    HasCandidateSnoc(headers, header, field);
    if field in st.mappings {
      var j :| Winner(headers, field, j) && st.mappings[field] == headers[j];
      WinnerKeptByOther(headers, header, field, j);
      assert (headers + [header])[j] == headers[j];
    }
  }

  /** The last header is the first candidate for the field. */
  lemma KeepsWinnerFirst(headers: seq<string>, header: string, field: string)
    requires KeepsWinner(headers, field) && Candidate(header, field)
    requires field !in Mapped(headers).mappings
    ensures KeepsWinner(headers + [header], field)
  {
    MappedAppend(headers, header);
    HasCandidateSnoc(headers, header, field);
    LastWinsAlone(headers, header, field);
    assert (headers + [header])[|headers|] == header;
  }

  /** The last header is a candidate for a field that already has a header. */
  lemma KeepsWinnerContest(headers: seq<string>, header: string, field: string)
    requires KeepsWinner(headers, field) && Candidate(header, field)
    requires field in Mapped(headers).mappings
    ensures KeepsWinner(headers + [header], field)
  {
    var st := Mapped(headers);
    MappedAppend(headers, header);
    HasCandidateSnoc(headers, header, field);
    var j :| Winner(headers, field, j) && st.mappings[field] == headers[j];
    MappedExplained(headers);
    assert ExplainsField(st, headers, field);
    assert Confidence(st, field) == MaxScore(headers[j]);
    if MaxScore(header) > MaxScore(headers[j]) {
      LastWinsOverWinner(headers, header, field, j);
      assert (headers + [header])[|headers|] == header;
    } else {
      WinnerKeptByLower(headers, header, field, j);
      assert (headers + [header])[j] == headers[j];
    }
  }

  /**
   * What map_columns computes, globally: a field is mapped iff some header is
   * a candidate for it, and then it holds the first candidate with the
   * highest score (strictly above every earlier candidate, at least every
   * later one).
   */
  lemma {:induction false} MappedWinner(headers: seq<string>, field: string)
    ensures field in Mapped(headers).mappings <==> HasCandidate(headers, field)
    ensures field in Mapped(headers).mappings ==>
              exists j :: Winner(headers, field, j) && Mapped(headers).mappings[field] == headers[j]
    decreases |headers|
  {
    if headers == [] {
      assert !HasCandidate(headers, field);
    } else {
      var n := |headers| - 1;
      var init, h := headers[..n], headers[n];
      assert headers == init + [h];
      MappedWinner(init, field);
      if !Candidate(h, field) {
        KeepsWinnerOther(init, h, field);
      } else if field !in Mapped(init).mappings {
        KeepsWinnerFirst(init, h, field);
      } else {
        KeepsWinnerContest(init, h, field);
      }
    }
  }

  /** The winner of a field is exactly the header the mapping gives it. */
  lemma FirstHighestScoreWins(headers: seq<string>, field: string, j: int)
    requires Winner(headers, field, j)
    ensures field in Mapped(headers).mappings && Mapped(headers).mappings[field] == headers[j]
  {
    MappedWinner(headers, field);
    var k :| Winner(headers, field, k) && Mapped(headers).mappings[field] == headers[k];
    WinnerUnique(headers, field, j, k);
  }

  // ---------------------------------------------------------------------------
  // reconcile_transactions (without detect_anomalies)
  // ---------------------------------------------------------------------------

  const ReferenceColumn := "transaction_reference"
  const MissingReferenceMessage := "transaction_reference column not found in one or both files"
  const InternalSuffix := "_internal"
  const ProviderSuffix := "_provider"

  /**
   * A data frame whose rows are told apart by their transaction reference.
   * The operations below take any value of this type, as pandas does not
   * check the shape of a frame either; WellFormed says what a frame read
   * from a file with a reference column looks like.
   */
  datatype Frame = Frame(columns: set<string>, rows: map<Value, Record>)

  /** Every row has only the frame's columns and carries its own reference. */
  ghost predicate WellFormed(frame: Frame) {
    forall ref :: ref in frame.rows ==>
      frame.rows[ref].Keys <= frame.columns &&
      ReferenceColumn in frame.rows[ref] && frame.rows[ref][ReferenceColumn] == ref
  }

  /** A reference present on both sides, with the two match flags. */
  datatype MatchedRow = MatchedRow(internal: Record, provider: Record, amountMatch: bool, statusMatch: bool)

  datatype ReconSummary = ReconSummary(
    matched: nat, internalOnly: nat, providerOnly: nat, amountMismatches: nat, statusMismatches: nat)

  datatype Reconciled = Reconciled(
    matched: map<Value, MatchedRow>, internalOnly: map<Value, Record>, providerOnly: map<Value, Record>,
    summary: ReconSummary)

  /** Column c exists on both sides, so the merge yields `c_internal` and `c_provider`. */
  predicate Shared(internal: Frame, provider: Frame, c: string) {
    c != ReferenceColumn && c in internal.columns && c in provider.columns
  }

  /** `amount_match` / `status_match`: the two sides agree, or the column is not on both sides. */
  function Agrees(internal: Frame, provider: Frame, c: string, ri: Record, rp: Record): bool {
    if Shared(internal, provider, c) then Field(ri, c) == Field(rp, c) else true
  }

  /** The column names of the outer merge (with its `_merge` indicator). */
  function MergedColumns(internal: Frame, provider: Frame): set<string> {
    {ReferenceColumn, "_merge"} +
    (set c | c in internal.columns && !Shared(internal, provider, c)) +
    (set c | c in provider.columns && !Shared(internal, provider, c)) +
    (set c | c in internal.columns && Shared(internal, provider, c) :: c + InternalSuffix) +
    (set c | c in internal.columns && Shared(internal, provider, c) :: c + ProviderSuffix)
  }

  /** `[col for col in df.columns if col in merged.columns]`, as written. */
  function SurvivingColumnsAsWritten(frame: Frame, internal: Frame, provider: Frame): set<string> {
    set c | c in frame.columns && c in MergedColumns(internal, provider)
  }

  /** The row restricted to the given columns. */
  function Project(row: Record, columns: set<string>): (r: Record)
    ensures r.Keys == row.Keys * columns
    ensures forall c :: c in r ==> r[c] == row[c]
  {
    map c | c in row && c in columns :: row[c]
  }

  /** A one-sided row as the code builds it: only the columns found under their own name in the merge. */
  function OneSidedRowAsWritten(frame: Frame, internal: Frame, provider: Frame, row: Record): (r: Record)
    ensures r.Keys == row.Keys * SurvivingColumnsAsWritten(frame, internal, provider)
  {
    Project(row, SurvivingColumnsAsWritten(frame, internal, provider))
  }

  /**
   * As written, a column both files have is renamed by the merge and then
   * dropped from the one-sided rows: with "amount" on both sides an
   * internal-only row keeps its reference but loses its amount, which the
   * corrected OneSidedRow keeps.
   */
  lemma SharedColumnDroppedAsWritten()
    ensures var f := Frame({ReferenceColumn, "amount"}, map[]);
            var row: Record := map[ReferenceColumn := Str("TXN003"), "amount" := Num(300)];
            SurvivingColumnsAsWritten(f, f, f) == {ReferenceColumn} &&
            OneSidedRowAsWritten(f, f, f, row) == map[ReferenceColumn := Str("TXN003")] &&
            OneSidedRow(f, row) == row
  {
    var f := Frame({ReferenceColumn, "amount"}, map[]);
    var row: Record := map[ReferenceColumn := Str("TXN003"), "amount" := Num(300)];
    var merged := MergedColumns(f, f);
    assert Shared(f, f, "amount");
    forall c | c in f.columns && Shared(f, f, c)
      ensures c + InternalSuffix != "amount" && c + ProviderSuffix != "amount"
    {
      assert |c + InternalSuffix| > |"amount"| && |c + ProviderSuffix| > |"amount"|;
    }
    assert "amount" !in merged;
    assert ReferenceColumn in merged;
    assert SurvivingColumnsAsWritten(f, f, f) == {ReferenceColumn};
    assert OneSidedRowAsWritten(f, f, f, row) == map[ReferenceColumn := Str("TXN003")];
    assert OneSidedRow(f, row) == row;
  }

  /** A one-sided row keeps every column of its own file (the corrected projection). */
  function OneSidedRow(frame: Frame, row: Record): (r: Record)
    ensures forall c :: c in frame.columns && c in row ==> c in r && r[c] == row[c]
    ensures r.Keys <= frame.columns
  {
    Project(row, frame.columns)
  }

  function AmountMismatches(matched: map<Value, MatchedRow>): set<Value> {
    set ref | ref in matched && !matched[ref].amountMatch
  }

  function StatusMismatches(matched: map<Value, MatchedRow>): set<Value> {
    set ref | ref in matched && !matched[ref].statusMatch
  }

  /** The rows of the merge whose `_merge` is "both", with their match flags. */
  function MatchedRows(internal: Frame, provider: Frame): (matched: map<Value, MatchedRow>)
    ensures matched.Keys == internal.rows.Keys * provider.rows.Keys
    ensures forall ref :: ref in matched ==>
              matched[ref].internal == internal.rows[ref] && matched[ref].provider == provider.rows[ref] &&
              matched[ref].amountMatch == Agrees(internal, provider, "amount", internal.rows[ref], provider.rows[ref]) &&
              matched[ref].statusMatch == Agrees(internal, provider, "status", internal.rows[ref], provider.rows[ref])
  {
    map ref | ref in internal.rows && ref in provider.rows ::
      MatchedRow(internal.rows[ref], provider.rows[ref],
                 Agrees(internal, provider, "amount", internal.rows[ref], provider.rows[ref]),
                 Agrees(internal, provider, "status", internal.rows[ref], provider.rows[ref]))
  }

  /**
   * The rows of `frame` whose reference `other` lacks ("left_only" /
   * "right_only"), cut down to the columns that survive the merge, as written.
   */
  function OneSidedRowsAsWritten(frame: Frame, other: Frame, internal: Frame, provider: Frame): (only: map<Value, Record>)
    ensures only.Keys == frame.rows.Keys - other.rows.Keys
    ensures forall ref :: ref in only ==> only[ref] == OneSidedRowAsWritten(frame, internal, provider, frame.rows[ref])
  {
    map ref | ref in frame.rows && ref !in other.rows :: OneSidedRowAsWritten(frame, internal, provider, frame.rows[ref])
  }

  /** The same rows with every column of their own file kept (the corrected projection). */
  function OneSidedRows(frame: Frame, other: Frame): (only: map<Value, Record>)
    ensures only.Keys == frame.rows.Keys - other.rows.Keys
    ensures forall ref :: ref in only ==> only[ref] == OneSidedRow(frame, frame.rows[ref])
  {
    map ref | ref in frame.rows && ref !in other.rows :: OneSidedRow(frame, frame.rows[ref])
  }

  /** The `summary` dict, before the anomaly counts. */
  function Summarize(matched: map<Value, MatchedRow>, internalOnly: map<Value, Record>,
                     providerOnly: map<Value, Record>): (s: ReconSummary)
    ensures s.matched == |matched| && s.internalOnly == |internalOnly| && s.providerOnly == |providerOnly|
    ensures s.amountMismatches == |AmountMismatches(matched)| && s.statusMismatches == |StatusMismatches(matched)|
    ensures s.amountMismatches <= s.matched && s.statusMismatches <= s.matched
  {
    SubsetCardinality(AmountMismatches(matched), matched.Keys);
    SubsetCardinality(StatusMismatches(matched), matched.Keys);
    ReconSummary(|matched|, |internalOnly|, |providerOnly|,
                 |AmountMismatches(matched)|, |StatusMismatches(matched)|)
  }

  /**
   * `reconcile_transactions`: an error when either frame lacks
   * transaction_reference; otherwise the outer merge on the reference split
   * into matched, internal-only and provider-only, with match flags and
   * counts. The one-sided rows are cut down as the code does it.
   */
  function Reconcile(internal: Frame, provider: Frame): (r: Result<Reconciled, string>)
    ensures r.Err? <==> ReferenceColumn !in internal.columns || ReferenceColumn !in provider.columns
    ensures r.Err? ==> r.error == MissingReferenceMessage
    ensures r.Ok? ==>
              r.value.matched == MatchedRows(internal, provider) &&
              r.value.internalOnly == OneSidedRowsAsWritten(internal, provider, internal, provider) &&
              r.value.providerOnly == OneSidedRowsAsWritten(provider, internal, internal, provider) &&
              r.value.summary == Summarize(r.value.matched, r.value.internalOnly, r.value.providerOnly)
  {
    if ReferenceColumn !in internal.columns || ReferenceColumn !in provider.columns then
      Err(MissingReferenceMessage)
    else
      var matched := MatchedRows(internal, provider);
      var internalOnly := OneSidedRowsAsWritten(internal, provider, internal, provider);
      var providerOnly := OneSidedRowsAsWritten(provider, internal, internal, provider);
      Ok(Reconciled(matched, internalOnly, providerOnly, Summarize(matched, internalOnly, providerOnly)))
  }

  /** `reconcile_transactions` with one-sided rows that keep all their own columns. */
  function ReconcileCorrected(internal: Frame, provider: Frame): (r: Result<Reconciled, string>)
    ensures r.Err? <==> ReferenceColumn !in internal.columns || ReferenceColumn !in provider.columns
    ensures r.Err? ==> r.error == MissingReferenceMessage
    ensures r.Ok? ==>
              r.value.matched == MatchedRows(internal, provider) &&
              r.value.internalOnly == OneSidedRows(internal, provider) &&
              r.value.providerOnly == OneSidedRows(provider, internal) &&
              r.value.summary == Summarize(r.value.matched, r.value.internalOnly, r.value.providerOnly)
  {
    if ReferenceColumn !in internal.columns || ReferenceColumn !in provider.columns then
      Err(MissingReferenceMessage)
    else
      var matched := MatchedRows(internal, provider);
      var internalOnly := OneSidedRows(internal, provider);
      var providerOnly := OneSidedRows(provider, internal);
      Ok(Reconciled(matched, internalOnly, providerOnly, Summarize(matched, internalOnly, providerOnly)))
  }

  /** Two maps with the same keys have the same size. */
  lemma SameKeysSameSize<K, V, W>(m: map<K, V>, n: map<K, W>)
    requires m.Keys == n.Keys
    ensures |m| == |n|
  {
    assert |m| == |m.Keys| && |n| == |n.Keys|;
  }

  /**
   * The correction changes nothing but the columns of the one-sided rows:
   * the same error, the same matched rows, the same references in each
   * category and the same summary, and an as-written row is the corrected
   * row with some columns removed.
   */
  lemma CorrectionOnlyAddsColumns(internal: Frame, provider: Frame)
    ensures Reconcile(internal, provider).Ok? <==> ReconcileCorrected(internal, provider).Ok?
    ensures Reconcile(internal, provider).Ok? ==>
              var a, c := Reconcile(internal, provider).value, ReconcileCorrected(internal, provider).value;
              a.matched == c.matched && a.summary == c.summary &&
              a.internalOnly.Keys == c.internalOnly.Keys && a.providerOnly.Keys == c.providerOnly.Keys &&
              (forall ref :: ref in a.internalOnly ==>
                 a.internalOnly[ref].Keys <= c.internalOnly[ref].Keys &&
                 forall col :: col in a.internalOnly[ref] ==> a.internalOnly[ref][col] == c.internalOnly[ref][col]) &&
              (forall ref :: ref in a.providerOnly ==>
                 a.providerOnly[ref].Keys <= c.providerOnly[ref].Keys &&
                 forall col :: col in a.providerOnly[ref] ==> a.providerOnly[ref][col] == c.providerOnly[ref][col])
  {
    if Reconcile(internal, provider).Ok? {
      var a, c := Reconcile(internal, provider).value, ReconcileCorrected(internal, provider).value;
      SameKeysSameSize(a.internalOnly, c.internalOnly);
      SameKeysSameSize(a.providerOnly, c.providerOnly);
    }
  }

  /**
   * For frames read from files with a reference column: every as-written
   * one-sided row still carries its reference (the one column the merge
   * never renames), and every corrected one-sided row is the original row.
   */
  lemma OneSidedRowsOfWellFormed(internal: Frame, provider: Frame)
    requires WellFormed(internal) && WellFormed(provider)
    requires ReferenceColumn in internal.columns && ReferenceColumn in provider.columns
    ensures var a := Reconcile(internal, provider).value;
            (forall ref :: ref in a.internalOnly ==> ReferenceColumn in a.internalOnly[ref] && a.internalOnly[ref][ReferenceColumn] == ref) &&
            (forall ref :: ref in a.providerOnly ==> ReferenceColumn in a.providerOnly[ref] && a.providerOnly[ref][ReferenceColumn] == ref)
    ensures var c := ReconcileCorrected(internal, provider).value;
            (forall ref :: ref in c.internalOnly ==> c.internalOnly[ref] == internal.rows[ref]) &&
            (forall ref :: ref in c.providerOnly ==> c.providerOnly[ref] == provider.rows[ref])
  {
    var a, c := Reconcile(internal, provider).value, ReconcileCorrected(internal, provider).value;
    forall ref | ref in a.internalOnly
      ensures ReferenceColumn in a.internalOnly[ref] && a.internalOnly[ref][ReferenceColumn] == ref
    {
      AsWrittenKeepsReference(internal, internal, provider, internal.rows[ref]);
    }
    forall ref | ref in a.providerOnly
      ensures ReferenceColumn in a.providerOnly[ref] && a.providerOnly[ref][ReferenceColumn] == ref
    {
      AsWrittenKeepsReference(provider, internal, provider, provider.rows[ref]);
    }
    forall ref | ref in c.internalOnly
      ensures c.internalOnly[ref] == internal.rows[ref]
    {
      OneSidedRowWhole(internal, internal.rows[ref]);
    }
    forall ref | ref in c.providerOnly
      ensures c.providerOnly[ref] == provider.rows[ref]
    {
      OneSidedRowWhole(provider, provider.rows[ref]);
    }
  }

  /** The reference column is never renamed, so an as-written row keeps it. */
  lemma AsWrittenKeepsReference(frame: Frame, internal: Frame, provider: Frame, row: Record)
    requires ReferenceColumn in frame.columns && ReferenceColumn in row
    ensures ReferenceColumn in OneSidedRowAsWritten(frame, internal, provider, row)
    ensures OneSidedRowAsWritten(frame, internal, provider, row)[ReferenceColumn] == row[ReferenceColumn]
  {
    assert ReferenceColumn in MergedColumns(internal, provider);
    assert ReferenceColumn in SurvivingColumnsAsWritten(frame, internal, provider);
  }

  /** A row with only its frame's columns is kept whole by the corrected projection. */
  lemma OneSidedRowWhole(frame: Frame, row: Record)
    requires row.Keys <= frame.columns
    ensures OneSidedRow(frame, row) == row
  {
    assert OneSidedRow(frame, row).Keys == row.Keys;
  }

  lemma SubsetCardinality<T>(a: set<T>, b: set<T>)
    requires a <= b
    ensures |a| <= |b|
  {
    assert b * a == a;
    assert |b - a| == |b| - |b * a|;
  }

  /** Splitting two sets into both, only-left and only-right. */
  lemma SplitCardinality<T>(a: set<T>, b: set<T>)
    ensures |a * b| + |a - b| == |a|
    ensures |a * b| + |a - b| + |b - a| == |a + b|
  {
    assert a + b == (a * b) + (a - b) + (b - a);
    assert |a - b| == |a| - |a * b|;
    assert |(a * b) + (a - b)| == |a * b| + |a - b|;
    assert |(a * b) + (a - b) + (b - a)| == |(a * b) + (a - b)| + |b - a|;
  }

  /** Both, only-left and only-right cover the union and do not overlap. */
  lemma SetPartition<T>(a: set<T>, b: set<T>)
    ensures (a * b) + (a - b) + (b - a) == a + b
    ensures (a * b) !! (a - b) && (a * b) !! (b - a) && (a - b) !! (b - a)
  {
  }

  /** The three categories partition the references of both files. */
  lemma CategoriesPartition(internal: Frame, provider: Frame)
    requires Reconcile(internal, provider).Ok?
    ensures var r := Reconcile(internal, provider).value;
            r.matched.Keys + r.internalOnly.Keys + r.providerOnly.Keys == internal.rows.Keys + provider.rows.Keys &&
            r.matched.Keys !! r.internalOnly.Keys && r.matched.Keys !! r.providerOnly.Keys &&
            r.internalOnly.Keys !! r.providerOnly.Keys
    ensures var r := ReconcileCorrected(internal, provider).value;
            r.matched.Keys + r.internalOnly.Keys + r.providerOnly.Keys == internal.rows.Keys + provider.rows.Keys &&
            r.matched.Keys !! r.internalOnly.Keys && r.matched.Keys !! r.providerOnly.Keys &&
            r.internalOnly.Keys !! r.providerOnly.Keys
  {
    SetPartition(internal.rows.Keys, provider.rows.Keys);
  }

  /**
   * The counts add up: matched plus internal-only is the internal file,
   * matched plus provider-only the provider file, and the three together
   * the distinct references; mismatches are among the matched.
   */
  lemma SummaryCountsAddUp(internal: Frame, provider: Frame)
    requires Reconcile(internal, provider).Ok?
    ensures var s := Reconcile(internal, provider).value.summary;
            s.matched + s.internalOnly == |internal.rows| &&
            s.matched + s.providerOnly == |provider.rows| &&
            s.matched + s.internalOnly + s.providerOnly == |internal.rows.Keys + provider.rows.Keys| &&
            s.amountMismatches <= s.matched && s.statusMismatches <= s.matched
    ensures ReconcileCorrected(internal, provider).value.summary == Reconcile(internal, provider).value.summary
  {
    CorrectionOnlyAddsColumns(internal, provider);
    var i, p := internal.rows.Keys, provider.rows.Keys;
    SplitCardinality(i, p);
    SplitCardinality(p, i);
    assert p * i == i * p;
  }

  /** Without an amount column on both sides no row is an amount mismatch. */
  lemma NoSharedAmountNoMismatch(internal: Frame, provider: Frame)
    requires Reconcile(internal, provider).Ok?
    requires !Shared(internal, provider, "amount")
    ensures Reconcile(internal, provider).value.summary.amountMismatches == 0
  {
    var r := Reconcile(internal, provider).value;
    assert AmountMismatches(r.matched) == {};
  }

  // ---------------------------------------------------------------------------
  // Examples after the back-end tests
  // ---------------------------------------------------------------------------

  /** The reference "TXN00n". */
  function Ref(n: nat): Value
    requires n < 10
  {
    Str("TXN00" + [(48 + n) as char])
  }

  lemma RefInjective(m: nat, n: nat)
    requires m < 10 && n < 10 && m != n
    ensures Ref(m) != Ref(n)
  {
    assert Ref(m).s[5] != Ref(n).s[5];
  }

  /** The row of transaction TXN00n with an amount and a status. */
  function Txn(n: nat, amount: int, status: string): Record
    requires n < 10
  {
    map[ReferenceColumn := Ref(n), "amount" := Num(amount), "status" := Str(status)]
  }

  /** TXN001 agrees on both sides; TXN002 differs in amount (200 against 250) and in status. */
  lemma MismatchFlagsExample(internal: Frame, provider: Frame)
    requires internal.columns == provider.columns == {ReferenceColumn, "amount", "status"}
    requires Ref(1) in internal.rows && Ref(1) in provider.rows && Ref(2) in internal.rows && Ref(2) in provider.rows
    requires internal.rows[Ref(1)] == Txn(1, 100, "Completed") && provider.rows[Ref(1)] == Txn(1, 100, "Completed")
    requires internal.rows[Ref(2)] == Txn(2, 200, "Pending") && provider.rows[Ref(2)] == Txn(2, 250, "Completed")
    requires internal.rows.Keys * provider.rows.Keys == {Ref(1), Ref(2)}
    ensures AmountMismatches(MatchedRows(internal, provider)) == {Ref(2)}
    ensures StatusMismatches(MatchedRows(internal, provider)) == {Ref(2)}
  {
    RefInjective(1, 2);
    assert Shared(internal, provider, "amount") && Shared(internal, provider, "status");
    assert "Pending" != "Completed";
  }

  /** Two shared references (one of them mismatched in both columns) and one on each side only. */
  lemma MixedReconciliationExample(internal: Frame, provider: Frame)
    requires internal.columns == provider.columns == {ReferenceColumn, "amount", "status"}
    requires internal.rows.Keys == {Ref(1), Ref(2), Ref(3)} && provider.rows.Keys == {Ref(1), Ref(2), Ref(5)}
    requires internal.rows[Ref(1)] == Txn(1, 100, "Completed") && provider.rows[Ref(1)] == Txn(1, 100, "Completed")
    requires internal.rows[Ref(2)] == Txn(2, 200, "Pending") && provider.rows[Ref(2)] == Txn(2, 250, "Completed")
    requires internal.rows[Ref(3)] == Txn(3, 300, "Failed") && provider.rows[Ref(5)] == Txn(5, 500, "Pending")
    ensures Reconcile(internal, provider).Ok?
    ensures Reconcile(internal, provider).value.summary == ReconSummary(2, 1, 1, 1, 1)
  {
    MixedReferences(internal, provider);
    MismatchFlagsExample(internal, provider);
  }

  /** The references of the mixed example fall into the three categories as expected. */
  lemma MixedReferences(internal: Frame, provider: Frame)
    requires internal.rows.Keys == {Ref(1), Ref(2), Ref(3)} && provider.rows.Keys == {Ref(1), Ref(2), Ref(5)}
    ensures internal.rows.Keys * provider.rows.Keys == {Ref(1), Ref(2)}
    ensures internal.rows.Keys - provider.rows.Keys == {Ref(3)}
    ensures provider.rows.Keys - internal.rows.Keys == {Ref(5)}
    ensures Ref(1) != Ref(2) && Ref(1) != Ref(3) && Ref(2) != Ref(3)
    ensures Ref(1) != Ref(5) && Ref(2) != Ref(5) && Ref(3) != Ref(5)
  {
    RefInjective(1, 2);
    RefInjective(1, 3);
    RefInjective(2, 3);
    RefInjective(1, 5);
    RefInjective(2, 5);
    RefInjective(3, 5);
  }

  /**
   * The one-sided rows of the mixed example: as written, the internal-only
   * TXN003 keeps only its reference; corrected, it keeps its whole row.
   */
  lemma MixedOneSidedRowsExample(internal: Frame, provider: Frame)
    requires internal.columns == provider.columns == {ReferenceColumn, "amount", "status"}
    requires internal.rows.Keys == {Ref(1), Ref(2), Ref(3)} && provider.rows.Keys == {Ref(1), Ref(2), Ref(5)}
    requires internal.rows[Ref(1)] == Txn(1, 100, "Completed") && provider.rows[Ref(1)] == Txn(1, 100, "Completed")
    requires internal.rows[Ref(2)] == Txn(2, 200, "Pending") && provider.rows[Ref(2)] == Txn(2, 250, "Completed")
    requires internal.rows[Ref(3)] == Txn(3, 300, "Failed") && provider.rows[Ref(5)] == Txn(5, 500, "Pending")
    ensures Reconcile(internal, provider).Ok? && ReconcileCorrected(internal, provider).Ok?
    ensures Reconcile(internal, provider).value.internalOnly == map[Ref(3) := map[ReferenceColumn := Ref(3)]]
    ensures ReconcileCorrected(internal, provider).value.internalOnly == map[Ref(3) := Txn(3, 300, "Failed")]
  {
    MixedReferences(internal, provider);
    SharedAmountAndStatusDropped(internal, provider);
    var row := Txn(3, 300, "Failed");
    assert internal.rows[Ref(3)] == row;
    var a := OneSidedRowsAsWritten(internal, provider, internal, provider);
    assert a.Keys == {Ref(3)};
    assert a[Ref(3)] == Project(row, {ReferenceColumn});
    assert Project(row, {ReferenceColumn}) == map[ReferenceColumn := Ref(3)];
    assert a == map[Ref(3) := map[ReferenceColumn := Ref(3)]];
    var c := OneSidedRows(internal, provider);
    assert c.Keys == {Ref(3)};
    OneSidedRowWhole(internal, row);
    assert c[Ref(3)] == row;
    assert c == map[Ref(3) := row];
  }

  /** With amount and status in both files, an as-written one-sided row keeps only the reference. */
  lemma SharedAmountAndStatusDropped(internal: Frame, provider: Frame)
    requires internal.columns == provider.columns == {ReferenceColumn, "amount", "status"}
    ensures SurvivingColumnsAsWritten(internal, internal, provider) == {ReferenceColumn}
  {
    var merged := MergedColumns(internal, provider);
    forall c | c in internal.columns && Shared(internal, provider, c)
      ensures c + InternalSuffix !in internal.columns && c + ProviderSuffix !in internal.columns
    {
      assert |c + InternalSuffix| > |"status"| && |c + ProviderSuffix| > |"status"|;
    }
    assert Shared(internal, provider, "amount") && Shared(internal, provider, "status");
    assert "amount" !in merged && "status" !in merged;
    assert ReferenceColumn in merged;
  }

  /** Two empty files with the usual columns reconcile to nothing. */
  lemma EmptyFramesExample(frame: Frame)
    requires frame.columns == {ReferenceColumn, "amount", "status"} && frame.rows == map[]
    ensures Reconcile(frame, frame) == Ok(Reconciled(map[], map[], map[], ReconSummary(0, 0, 0, 0, 0)))
  {
    assert MatchedRows(frame, frame) == map[];
    assert OneSidedRowsAsWritten(frame, frame, frame, frame) == map[];
  }
}
