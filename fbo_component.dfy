/** ren::FBO, the component an entity carries to say which index buffer it uses. */
module FboComponent {
  import opened GLTypes

  /** The component's only data: the GL name of the buffer. */
  datatype Fbo = Fbo(glid: GLuint)

  /** getName. */
  const ComponentName: string := "ren:FBO"

  /** The default constructor: no buffer yet, glid 0. */
  function DefaultFbo(): (c: Fbo)
    ensures c.glid == 0
  {
    Fbo(0)
  }

  /**
   * serialize: the buffer name only makes sense in the current GL context, so
   * nothing is written; the component comes back unchanged and the call succeeds.
   */
  function Serialize(c: Fbo, entityId: nat): (r: (bool, Fbo))
    ensures r.0
    ensures r.1 == c
  {
    (true, c)
  }
}
