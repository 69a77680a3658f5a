/** What `get_links` returns: one pair per anchor element of the fetched page,
    in document order. */
module Links {

  /** An anchor's text and its `href` attribute. On a package's own page the
      text is the artifact's file name and the `href` its download URL. */
  datatype Link = Link(text: string, href: string)
}
