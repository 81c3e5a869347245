/** What the client does to the outside world through the browser page and the
    logger, recorded as a trace of events. The browser itself (Puppeteer) is
    not modelled: what it answers (the current URL, whether a click threw) is
    passed in as plain values by the callers. */
module Browser {

  datatype Event =
    | Navigate(url: string)                       // page.goto
    | TypeText(selector: string, text: string)    // page.type
    | SubmitForm                                  // page.$eval('form', form => form.submit())
    | PrimaryClick(runIdx: nat, selector: string) // backupRun.$(selector), then click()
    | FallbackClick(runIdx: nat, selector: string)// page.evaluate: querySelectorAll(selector)[runIdx].click()
    | LogError(message: string)                   // logger.error
    | LogWarning(message: string)                 // logger.warn

  /** JavaScript's `String.prototype.startsWith`. */
  predicate StartsWith(s: string, prefix: string)
  {
    prefix <= s
  }
}
