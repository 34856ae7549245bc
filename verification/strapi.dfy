/** The part of Strapi's directory layout (`Core.StrapiDirectories`) the output manager reads. */
module Strapi {

  /** The application's own folders; every one of them belongs to the user. */
  datatype AppDirectories = AppDirectories(
    root: string,
    src: string,
    api: string,
    components: string,
    extensions: string,
    policies: string,
    middlewares: string,
    config: string)

  /** `app`, `dist.root` and `static.public`; the other `dist` fields are left undefined by the plugin. */
  datatype StrapiDirectories = StrapiDirectories(
    app: AppDirectories,
    distRoot: string,
    staticPublic: string)
}
