/** A portal row as the run loop holds it in memory: four fields fixed at
    construction and the mutable cursor `recentJobId`. */
module PortalModel {

  import opened Values

  class Portal {
    const id: int
    /** A primitive `boolean` in the constructor, so it is never null. */
    const workday: bool
    const portal: JString
    const link: JString
    /** The req id of the newest job seen on the previous run, or null. */
    var recentJobId: JString

    constructor (id: int, workday: bool, portal: JString, link: JString, recentJobId: JString)
      ensures this.id == id && this.workday == workday
      ensures this.portal == portal && this.link == link
      ensures this.recentJobId == recentJobId
    {
      this.id := id;
      this.workday := workday;
      this.portal := portal;
      this.link := link;
      this.recentJobId := recentJobId;
    }

    /** Changes the cursor and nothing else; the final fields are `const`. */
    method SetRecentJobId(v: JString)
      modifies this`recentJobId
      ensures recentJobId == v
    {
      recentJobId := v;
    }
  }
}
