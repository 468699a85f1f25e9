/** The parts of `cr_Package` that the merge looks at. */
module Packages {
  import opened Basics
  import opened Versions

  datatype Package = Package(
    name: string,
    arch: Option<string>,
    evr: Evr,
    timeFile: int,
    sourceRpm: Option<string>,
    pkgId: string)

  /** printf's "%s" */
  function Shown(s: Option<string>): string {
    if s.Some? then s.value else "(null)"
  }

  /** cr_package_nvra */
  function Nvra(p: Package): string {
    p.name + "-" + Shown(p.evr.version) + "-" + Shown(p.evr.release) + "." + Shown(p.arch)
  }
}
