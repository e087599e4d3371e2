/** One row of the segment configuration. */
module Segments {

  datatype SegConfig = SegConfig(
    dbID: int,
    contentID: int,
    role: string,
    preferredRole: string,
    mode: string,
    status: string,
    port: int,
    hostname: string,
    address: string,
    dataDir: string)
}
