/**
 * The reading timeline shared by the completed-book page and the review
 * screen: one node per record with a written note, in date order, then the
 * final-review node; bounded navigation between nodes; and the plain-text
 * export of the timeline.
 */
module Timeline {
  import opened Optional
  import opened Domain
  import opened Lists
  import opened Sorting
  import opened JsText

  /** A timeline node; `date` None stands for an invalid date. */
  datatype Node = Node(
    id: nat,
    date: Option<Timestamp>,
    content: string,
    percentage: int,
    isEditable: bool,
    isFinal: bool)

  /** `record.notes && record.notes.trim()`: the empty note is blank too, so one test covers both. */
  function HasNotes(): Record -> bool {
    (r: Record) => !IsBlank(r.notes)
  }

  function RecordDate(): Record -> int {
    (r: Record) => r.date
  }

  /** The records with a note, sorted (stably) by date. */
  function NotedRecords(history: seq<Record>): (r: seq<Record>)
    ensures SortedBy(r, RecordDate())
    ensures multiset(r) == multiset(Filter(history, HasNotes()))
  {
    SortByKey(Filter(history, HasNotes()), RecordDate())
  }

  /** The read-only node of record r at position i. */
  function NodeOf(r: Record, i: nat): Node {
    Node(i, Some(r.date), r.notes, r.percentage, false, false)
  }

  /** `nodes`: the filter, sort and map pipeline. */
  function TimelineNodes(history: seq<Record>): (nodes: seq<Node>)
    ensures |nodes| == |Filter(history, HasNotes())|
    ensures forall i :: 0 <= i < |nodes| ==> nodes[i].id == i && !nodes[i].isEditable && !nodes[i].isFinal
  {
    var sorted := NotedRecords(history);
    assert |sorted| == |multiset(sorted)| == |multiset(Filter(history, HasNotes()))|;
    seq(|sorted|, i requires 0 <= i < |sorted| => NodeOf(sorted[i], i))
  }

  /** The node at position i shows the i-th record of the sorted noted records. */
  lemma NodeAt(history: seq<Record>, i: nat)
    requires i < |TimelineNodes(history)|
    ensures i < |NotedRecords(history)| && TimelineNodes(history)[i] == NodeOf(NotedRecords(history)[i], i)
  {
  }

  /** The sorted noted records are exactly the records of the history with a note. */
  lemma NotedRecordsMembers(history: seq<Record>)
    ensures forall x :: x in NotedRecords(history) <==> x in history && HasNotes()(x)
  {
    var noted := Filter(history, HasNotes());
    var sorted := NotedRecords(history);
    forall x
      ensures x in sorted <==> x in history && HasNotes()(x)
    {
      calc {
        x in sorted;
        x in multiset(sorted);
        x in multiset(noted);
        x in noted;
      }
      if x in history && HasNotes()(x) {
        var k :| 0 <= k < |history| && history[k] == x;
      }
    }
  }

  /** Every node shows a record of the history with a non-blank note, at its sorted position. */
  lemma NodesShowNotedRecords(history: seq<Record>)
    ensures var nodes := TimelineNodes(history);
      forall i :: 0 <= i < |nodes| ==>
        !IsBlank(nodes[i].content) && exists k :: 0 <= k < |history| && nodes[i] == NodeOf(history[k], i)
  {
    var sorted := NotedRecords(history);
    var nodes := TimelineNodes(history);
    NotedRecordsMembers(history);
    forall i | 0 <= i < |nodes|
      ensures !IsBlank(nodes[i].content)
      ensures exists k :: 0 <= k < |history| && nodes[i] == NodeOf(history[k], i)
    {
      NodeAt(history, i);
      assert sorted[i] in sorted;
      var k :| 0 <= k < |history| && history[k] == sorted[i];
    }
  }

  /** Every record with a non-blank note has a node. */
  lemma NotedRecordsHaveNodes(history: seq<Record>)
    ensures var nodes := TimelineNodes(history);
      forall k :: 0 <= k < |history| && !IsBlank(history[k].notes) ==>
        exists i :: 0 <= i < |nodes| && nodes[i] == NodeOf(history[k], i)
  {
    var sorted := NotedRecords(history);
    var nodes := TimelineNodes(history);
    NotedRecordsMembers(history);
    assert |nodes| == |sorted|;
    forall k | 0 <= k < |history| && !IsBlank(history[k].notes)
      ensures exists i :: 0 <= i < |nodes| && nodes[i] == NodeOf(history[k], i)
    {
      assert HasNotes()(history[k]);
      var i :| 0 <= i < |sorted| && sorted[i] == history[k];
      NodeAt(history, i);
    }
  }

  /** The node dates never go back. */
  lemma NodesInDateOrder(history: seq<Record>)
    ensures var nodes := TimelineNodes(history);
      forall i, j :: 0 <= i < j < |nodes| ==> nodes[i].date.value <= nodes[j].date.value
  {
    var sorted := NotedRecords(history);
    var nodes := TimelineNodes(history);
    forall i, j | 0 <= i < j < |nodes|
      ensures nodes[i].date.value <= nodes[j].date.value
    {
      assert RecordDate()(sorted[i]) <= RecordDate()(sorted[j]);
    }
  }

  /** The timeline followed by the final node, whose id is the number of note nodes. */
  function AllNodes(nodes: seq<Node>, final: Node): (r: seq<Node>)
    requires final.id == |nodes|
    ensures |r| == |nodes| + 1 && r[|nodes|] == final
    ensures forall i :: 0 <= i < |r| ==> (i < |nodes| ==> r[i] == nodes[i])
  {
    nodes + [final]
  }

  /** `navigateNode(direction)`: move only when the new index is a node's index. */
  function Navigate(index: int, direction: int, count: nat): int {
    if 0 <= index + direction < count then index + direction else index
  }

  /**
   * Navigation keeps a valid index valid, moves exactly when the target
   * exists, and a move followed by the opposite move returns to the start.
   */
  lemma NavigateBounded(index: int, direction: int, count: nat)
    requires 0 <= index < count
    ensures 0 <= Navigate(index, direction, count) < count
    ensures Navigate(index, direction, count) != index <==> direction != 0 && 0 <= index + direction < count
    ensures 0 <= index + direction < count ==>
              Navigate(Navigate(index, direction, count), -direction, count) == index
  {
  }

  // ---------------------------------------------------------------- export

  /** One node's block: `${index + 1}. ${date} (${percentage}%進捗)`, the note, and an empty line. */
  function NodeBlock(index: nat, dateText: string, node: Node): string {
    Join([IntToString(index + 1) + ". " + dateText + " (" + IntToString(node.percentage) + "%進捗)",
          node.content, ""], "\n")
  }

  /** `review || '（未記入）'` */
  function ReviewText(review: Option<string>): (r: string)
    ensures r != ""
    ensures TruthyText(review) ==> r == review.value
  {
    if TruthyText(review) then review.value else "（未記入）"
  }

  /**
   * The lines of the exported text. Dates arrive already formatted for the
   * `ja-JP` locale (one per node, and the generation time).
   */
  function ExportLines(title: string, nodes: seq<Node>, dateTexts: seq<string>, review: Option<string>,
                       generated: string): seq<string>
    requires |dateTexts| == |nodes|
  {
    ["『" + title + "』読書記録", "=" + Repeat('=', |title| + 7), ""]
    + seq(|nodes|, i requires 0 <= i < |nodes| => NodeBlock(i, dateTexts[i], nodes[i]))
    + ["最終感想:", ReviewText(review), "", "生成日時: " + generated]
  }

  /** `downloadVisualization()`'s text: the lines joined by newlines. */
  function ExportText(title: string, nodes: seq<Node>, dateTexts: seq<string>, review: Option<string>,
                      generated: string): string
    requires |dateTexts| == |nodes|
  {
    Join(ExportLines(title, nodes, dateTexts, review, generated), "\n")
  }

  /**
   * The export has a title line, a rule of '=' two characters longer than
   * the title line (title length plus 8), an empty line, a block per node in
   * order numbered from 1, then the final review (or the placeholder when
   * none was written) under its heading, and the generation time last.
   */
  lemma ExportLayout(title: string, nodes: seq<Node>, dateTexts: seq<string>, review: Option<string>,
                     generated: string)
    requires |dateTexts| == |nodes|
    ensures var lines := ExportLines(title, nodes, dateTexts, review, generated);
      && |lines| == |nodes| + 7
      && |lines[1]| == |title| + 8 == |lines[0]| + 2
      && (forall c :: 0 <= c < |lines[1]| ==> lines[1][c] == '=')
      && lines[2] == ""
      && (forall i :: 0 <= i < |nodes| ==> lines[3 + i] == NodeBlock(i, dateTexts[i], nodes[i]))
      && lines[|nodes| + 3] == "最終感想:"
      && lines[|nodes| + 4] == (if TruthyText(review) then review.value else "（未記入）")
      && lines[|nodes| + 6] == "生成日時: " + generated
    ensures ExportText(title, nodes, dateTexts, review, generated)[..|title| + 6] == "『" + title + "』読書記録"
  {
    var lines := ExportLines(title, nodes, dateTexts, review, generated);
    assert |"『" + title + "』読書記録"| == |title| + 6;
  }
}
