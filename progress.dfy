/**
 * The progress column of the upload page's object table: "Completed" for a
 * finished object, otherwise `Math.ceil(100 * uploadedChunks / totalChunks)`
 * followed by a percent sign. Division by zero yields JavaScript's special
 * numbers, which print as "NaN", "Infinity" and "-Infinity".
 */
module Progress {
  import opened Text
  import opened ChunkGeometry

  /** One row of the object listing, with the fields the page reads. */
  datatype ObjectItem = ObjectItem(
    path: string,
    completed: bool,
    nBytes: int,
    uploadedChunks: int,
    totalChunks: int)

  /** The integral and special values `Math.ceil` can produce here. */
  datatype JsNumber = Finite(value: int) | NaN | Infinity | NegInfinity

  /** `Math.ceil(100 * uploaded / total)`, with exact arithmetic. */
  function Percent(uploaded: int, total: int): (p: JsNumber)
    ensures p.Finite? <==> total != 0
    ensures total == 0 ==> (p.NaN? <==> uploaded == 0)
  {
    if total > 0 then Finite(CeilDiv(100 * uploaded, total))
    else if total < 0 then Finite(CeilDiv(-100 * uploaded, -total))
    else if uploaded > 0 then Infinity
    else if uploaded < 0 then NegInfinity
    else NaN
  }

  function NumberText(x: JsNumber): string
  {
    match x
    case Finite(v) => IntToString(v)
    case NaN => "NaN"
    case Infinity => "Infinity"
    case NegInfinity => "-Infinity"
  }

  /** The text of the progress cell: a completed object never shows a percentage. */
  function ProgressCell(item: ObjectItem): (cell: string)
    ensures cell == "Completed" <==> item.completed
    ensures !item.completed ==> |cell| > 0 && cell[|cell| - 1] == '%'
  {
    if item.completed then "Completed"
    else
      var cell := NumberText(Percent(item.uploadedChunks, item.totalChunks)) + "%";
      assert cell[|cell| - 1] != "Completed"[8];
      cell
  }

  /**
   * With `0 <= uploaded <= total` the percentage lies in [0, 100]; it is 0 only
   * before the first chunk, at least 1 after it, and 100 once every chunk is in.
   */
  lemma PercentInRange(uploaded: int, total: int)
    requires 0 <= uploaded <= total && 0 < total
    ensures Percent(uploaded, total).Finite?
    ensures 0 <= Percent(uploaded, total).value <= 100
    ensures Percent(uploaded, total).value == 0 <==> uploaded == 0
    ensures uploaded == total ==> Percent(uploaded, total).value == 100
  {
    var p := CeilDiv(100 * uploaded, total);
    MulMonotone(total, p - 1, 100);
    MulMonotone(total, 100, p);
    MulMonotone(total, p, 0);
    MulMonotone(total, 0, p);
    MulMonotone(total, p - 1, 0);
  }

  /**
   * The percentage shows 100 as soon as more than 99% of the chunks are in,
   * before the upload has finished, and never below that.
   */
  lemma PercentFull(uploaded: int, total: int)
    requires 0 <= uploaded <= total && 0 < total
    ensures Percent(uploaded, total).value == 100 <==> 100 * uploaded > 99 * total
  {
    var p := CeilDiv(100 * uploaded, total);
    PercentInRange(uploaded, total);
    MulMonotone(total, p, 99);
    MulMonotone(total, 99, p - 1);
  }

  /** 199 of 200 chunks already reads "100%". */
  lemma PercentFullBeforeLastChunk()
    ensures ProgressCell(ObjectItem("f", false, 0, 199, 200)) == "100%"
  {
    PercentFull(199, 200);
  }

  /** More chunks uploaded never shows a smaller percentage. */
  lemma PercentMonotone(u1: int, u2: int, total: int)
    requires u1 <= u2 && 0 < total
    ensures Percent(u1, total).value <= Percent(u2, total).value
  {
    var p1 := CeilDiv(100 * u1, total);
    var p2 := CeilDiv(100 * u2, total);
    MulMonotone(total, p2, p1 - 1);
  }

}
