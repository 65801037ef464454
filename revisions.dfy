/** One commit as it applies to one path. The record has no behaviour beyond its
    five fields, given to the constructor in this order; the revision number is
    the string read from the log's `revision` attribute. */
module Revisions {

  datatype Revision = Revision(name: string, date: string, author: string, msg: string, revision: string)
}
