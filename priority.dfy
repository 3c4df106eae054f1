/** The tile-priority scale of the terrain cache.

    A priority is a totally ordered score, larger meaning more important to
    keep resident and to draw. Two constants matter to the quadtree: `NONE`,
    the score of a node nobody has scored, and `CUTOFF`, the least score at
    which a node is worth displaying and refining. */
module Priorities {

  type Priority = real

  /** The score reported for a node that has no entry in the priority map. */
  const NONE: Priority := 0.0

  /** Nodes scoring at least this are displayed and may be refined. */
  const CUTOFF: Priority := 1.0
}
