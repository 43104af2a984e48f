/**
 * The branch table of the editor's paste handler: what it does with a paste
 * event and whether the browser's own paste may go ahead.
 */
module Paste {
  import opened Rules
  import Dom

  /** How the clipboard reports its content types. */
  datatype Types =
    | NoTypes                         // `types` is missing
    | ContainsApi(list: seq<string>)  // a DOMStringList, queried with `contains`
    | IndexOfApi(list: seq<string>)   // an array, queried with `indexOf`
    | OtherApi                        // something with neither

  /**
   * The parts of a paste event the handler looks at. `clipboard` stands for
   * `event && event.clipboardData && event.clipboardData.getData`; `data` is
   * what `getData('text/html')` returns, `None` when it throws.
   */
  datatype PasteEvent = PasteEvent(isPaste: bool, clipboard: bool, types: Types, data: Dom.Option<string>)

  /** What the handler does besides returning. */
  datatype Action =
    | UpdateLater                      // updateOriginalDelayed
    | FallbackLater                    // fallbackPasteCleanupDelayed
    | Insert(content: string)          // preventDefault, insert the cleaned markup, update, normalise

  datatype Outcome = Outcome(proceed: bool, action: Action)

  const AppleTypes: set<string> := {"com.apple.webarchive", "com.apple.iWork.TSPNativeData"}

  /** The editor's cleaning environment: the abstract regular-expression rules and the browser round trip. */
  datatype Cleaner = Cleaner(p: CleanPatterns, q: PastePatterns, reparse: string -> string)

  /**
   * `pasteCleanup`. The browser's paste is stopped exactly on the full
   * success path: a paste event, a usable clipboard, an HTML flavour and a
   * `getData` that does not throw; then the cleaned markup is inserted.
   */
  function PasteCleanup(e: PasteEvent, env: Cleaner): (o: Outcome)
    ensures !o.proceed <==> e.isPaste && e.clipboard && ReportsHtml(e.types) && e.data.Some?
    ensures !o.proceed ==> o.action == Insert(CleanPasteHTML(e.data.value, env.p, env.q, env.reparse))
    ensures o.proceed ==> !o.action.Insert?
  {
    if !e.isPaste then Outcome(true, UpdateLater)
    else if !e.clipboard then Outcome(true, FallbackLater)
    else
      match e.types
      case OtherApi => Outcome(true, FallbackLater)
      case IndexOfApi(list) =>
        if "text/html" in list then HtmlPaste(e, env)
        else if "com.apple.webarchive" in list || "com.apple.iWork.TSPNativeData" in list then Outcome(true, FallbackLater)
        else Outcome(true, UpdateLater)
      case ContainsApi(list) =>
        if "text/html" in list then HtmlPaste(e, env) else Outcome(true, UpdateLater)
      case NoTypes => Outcome(true, UpdateLater)
  }

  /** The branch reached once the types report `text/html`. */
  function HtmlPaste(e: PasteEvent, env: Cleaner): (o: Outcome)
  {
    match e.data
    case None => Outcome(true, FallbackLater)
    case Some(content) => Outcome(false, Insert(CleanPasteHTML(content, env.p, env.q, env.reparse)))
  }

  /** The clipboard reports an HTML flavour. */
  predicate ReportsHtml(t: Types)
  {
    (t.ContainsApi? || t.IndexOfApi?) && "text/html" in t.list
  }

  /**
   * The deferred fallback clean runs when the clipboard cannot be read: no
   * clipboard, an unknown types interface, an Apple-only paste, or a failing
   * `getData`. Every other non-HTML path just schedules the textarea update.
   */
  lemma PasteFallback(e: PasteEvent, env: Cleaner)
    ensures PasteCleanup(e, env).action == FallbackLater <==> (
      e.isPaste
      && (!e.clipboard
          || e.types.OtherApi?
          || (e.types.IndexOfApi? && "text/html" !in e.types.list && (exists a :: a in AppleTypes && a in e.types.list))
          || (ReportsHtml(e.types) && e.data.None?)))
  {
    var o := PasteCleanup(e, env);
    if e.isPaste && e.clipboard && e.types.IndexOfApi? && "text/html" !in e.types.list {
      if o.action == FallbackLater {
        if "com.apple.webarchive" in e.types.list {
          assert "com.apple.webarchive" in AppleTypes;
        } else {
          assert "com.apple.iWork.TSPNativeData" in AppleTypes;
        }
      }
    }
  }
}
