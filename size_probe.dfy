/**
 * The background size lookup started by `on_select`: the guard in
 * `_get_file_size` and the outcome `_fetch_and_display_file_size` hands back
 * to the window. The HEAD request itself is not modelled; its outcome is the
 * parameter `head`.
 */
module SizeProbe {
  import opened Wrappers

  /** Python truthiness of an optional string: present and not empty. */
  predicate Present(u: Option<string>) {
    u.Some? && u.value != ""
  }

  /**
   * 1024^5. `_format_bytes` names units up to TB (1024^4); a count whose
   * base-1024 logarithm reaches 5 indexes past its unit names.
   */
  const UnitLimit: nat := 1024 * 1024 * 1024 * 1024 * 1024

  /**
   * The byte counts `_format_bytes` formats without raising: a negative count
   * fails in the logarithm, one of UnitLimit or more in the unit lookup.
   */
  predicate Formattable(n: int) {
    0 <= n < UnitLimit
  }

  /** The "File Size" line of the details panel, abstracted from its text. */
  datatype SizeText =
    | Formatted(bytes: nat)  // the human-readable size of `bytes`
    | Undetermined           // "Could not determine file size ..."
    | FormatFailed           // "Error fetching size: ..."

  /** The arguments `on_select` starts a size thread with. */
  datatype SizeRequest = SizeRequest(url: Option<string>, version: string, notes: string, selectionId: string)

  /** The arguments the size thread passes to `_update_details_with_size`. */
  datatype SizeReport =
    SizeReport(version: string, url: Option<string>, size: SizeText, notes: string, canDownload: bool, selectionId: string)

  /**
   * `_get_file_size`: no request at all for a missing or empty URL; otherwise
   * `head`, the Content-Length the HEAD request produced (`None` when it
   * failed, timed out, or the header was missing or not a number).
   */
  function FileSize(url: Option<string>, head: Option<int>): (r: Option<int>)
    ensures r.Some? <==> Present(url) && head.Some?
    ensures r.Some? ==> r == head
  {
    if !Present(url) then None else head
  }

  /**
   * `_fetch_and_display_file_size`: the size text and `can_download` for a
   * request. Downloading is allowed exactly when the URL is present, the
   * lookup produced a count and that count could be formatted; the request's
   * own fields are passed through unchanged.
   */
  function FetchSize(req: SizeRequest, head: Option<int>): (r: SizeReport)
    ensures r.canDownload <==> Present(req.url) && head.Some? && Formattable(head.value)
    ensures r.canDownload ==> r.size == Formatted(head.value)
    ensures r.size == Undetermined <==> !Present(req.url) || head.None?
    ensures r.version == req.version && r.url == req.url && r.notes == req.notes
    ensures r.selectionId == req.selectionId
  {
    var size := FileSize(req.url, head);
    if size.None? then
      SizeReport(req.version, req.url, Undetermined, req.notes, false, req.selectionId)
    else if Formattable(size.value) then
      SizeReport(req.version, req.url, Formatted(size.value), req.notes, true, req.selectionId)
    else
      SizeReport(req.version, req.url, FormatFailed, req.notes, false, req.selectionId)
  }

  /** A report as FetchSize produces it: downloading is only allowed with a known size. */
  predicate Consistent(r: SizeReport) {
    r.canDownload ==> r.size.Formatted?
  }
}
