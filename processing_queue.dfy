/**
 * The `processing_queue` table: one row per uploaded video.  Nullable columns are
 * `Option`s, non-null ones plain values.  The status column is a plain string, so the
 * three-valued `StatusEnum` is documentation rather than a constraint on what is stored.
 * Timestamps are abstract integers (seconds); `Float` columns are `real`.
 */
module ProcessingQueueModel {
  import opened Wrappers

  /** The declared job states.  There is no failure state. */
  datatype StatusEnum = QUEUED | PROCESSING | COMPLETE

  /** The string each enum member stands for. */
  function StatusValue(e: StatusEnum): string {
    match e
    case QUEUED => "QUEUED"
    case PROCESSING => "PROCESSING"
    case COMPLETE => "COMPLETE"
  }

  /** Python's `StatusEnum(v)`: the member whose value is `v`, if any. */
  function StatusFromValue(v: string): (r: Option<StatusEnum>)
    ensures r.Some? ==> StatusValue(r.value) == v
    ensures r.None? ==> forall e: StatusEnum :: StatusValue(e) != v
  {
    if v == "QUEUED" then Some(QUEUED)
    else if v == "PROCESSING" then Some(PROCESSING)
    else if v == "COMPLETE" then Some(COMPLETE)
    else None
  }

  /** Every enum value survives the round trip through its stored string. */
  lemma StatusRoundTrip(e: StatusEnum)
    ensures StatusFromValue(StatusValue(e)) == Some(e)
  {
  }

  /** The enum has exactly three members, with three distinct stored strings. */
  lemma ExactlyThreeStatuses(e: StatusEnum, f: StatusEnum)
    ensures e == QUEUED || e == PROCESSING || e == COMPLETE
    ensures StatusValue(e) == StatusValue(f) <==> e == f
  {
  }

  /** One row of `agritrack_app.processing_queue`. */
  datatype ProcessingQueue = ProcessingQueue(
    id: int,
    fileName: string,
    uploadTimestamp: int,
    status: string,
    format: string,
    durationSeconds: Option<int>,
    size: Option<real>,
    resolution: Option<string>,
    progressPercentage: Option<int>,
    processingTime: Option<int>,
    processedFrames: Option<int>,
    detectedObjects: Option<int>,
    averageConfidence: Option<real>)

  /** All eight processing-metric columns are `NULL`. */
  predicate MetricsUnset(row: ProcessingQueue) {
    && row.durationSeconds.None? && row.size.None? && row.resolution.None?
    && row.progressPercentage.None? && row.processingTime.None?
    && row.processedFrames.None? && row.detectedObjects.None? && row.averageConfidence.None?
  }

  /** The same metric columns in two rows. */
  predicate SameMetrics(a: ProcessingQueue, b: ProcessingQueue) {
    && a.durationSeconds == b.durationSeconds && a.size == b.size && a.resolution == b.resolution
    && a.progressPercentage == b.progressPercentage && a.processingTime == b.processingTime
    && a.processedFrames == b.processedFrames && a.detectedObjects == b.detectedObjects
    && a.averageConfidence == b.averageConfidence
  }

  /** The table: its rows and the next value of the `id` autoincrement sequence. */
  datatype Table = Table(rows: seq<ProcessingQueue>, nextId: int)

  /** Primary keys are distinct and all below the sequence's next value. */
  ghost predicate Valid(t: Table) {
    && t.nextId >= 1
    && (forall i :: 0 <= i < |t.rows| ==> t.rows[i].id < t.nextId)
    && (forall i, j :: 0 <= i < j < |t.rows| ==> t.rows[i].id != t.rows[j].id)
  }

  function EmptyTable(): (t: Table)
    ensures Valid(t) && t.rows == []
  {
    Table([], 1)
  }

  /**
   * An insert that names only the non-null columns without a default: the id comes from
   * the autoincrement sequence, `upload_timestamp` defaults to the creation time `now`
   * unless one is given, and every nullable column is `NULL`.
   */
  function Insert(t: Table, fileName: string, format: string, status: string,
                  uploadTimestamp: Option<int>, now: int): (t': Table)
    requires Valid(t)
    ensures Valid(t')
    ensures |t'.rows| == |t.rows| + 1 && t'.rows[..|t.rows|] == t.rows
    ensures var row := t'.rows[|t.rows|];
      && row.id == t.nextId
      && (forall i :: 0 <= i < |t.rows| ==> t.rows[i].id != row.id)
      && row.fileName == fileName && row.format == format && row.status == status
      && row.uploadTimestamp == (if uploadTimestamp.Some? then uploadTimestamp.value else now)
      && MetricsUnset(row)
  {
    var row := ProcessingQueue(t.nextId, fileName, uploadTimestamp.GetOr(now), status, format,
                               None, None, None, None, None, None, None, None);
    Table(t.rows + [row], t.nextId + 1)
  }

  /**
   * The worker's `'COMPLETED'` is not a value of the enum, yet a row holding it is
   * a legal row of the table, which checks nothing about the string.
   */
  lemma CompletedIsNotAStatus(t: Table, now: int)
    requires Valid(t)
    ensures StatusFromValue("COMPLETED") == None
    ensures var t' := Insert(t, "video.mp4", ".mp4", "COMPLETED", None, now);
      Valid(t') && t'.rows[|t.rows|].status == "COMPLETED"
  {
  }
}
