/**
 * The mission record the web part displays (the `IMission` shape it reads).
 * Dates are kept as the text their `toString()` produces; an empty `endDate`
 * means the record gives no end date.
 */
module Missions {

  datatype Mission = Mission(
    id: string,
    name: string,
    launchDate: string,
    endDate: string,
    wikiHref: string)
}
