/** The record that `pkg info` yields for each installed package (src/package.rs). */
module Packages {

  /**
   * One installed package. src/package.rs declares `dependencies` as an optional
   * vector but the catalog parser stores a plain empty vector in it and the
   * dependency fetcher pushes onto it, so it is a plain sequence here.
   */
  datatype Package = Package(
    name: string,
    version: string,
    description: string,
    dependencies: seq<string>)
}
